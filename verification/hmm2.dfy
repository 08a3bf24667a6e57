/**
 HMM2/heap.c: a doubly linked free list whose `length` field INCLUDES the
 node header, so a node at `off` spans `[off, off + length)`. The break is
 moved by the operating system's `sbrk`, modelled as the bounded cursor of
 module `Arena` with an unknown capacity.

 Defects of the code as written, each recorded where it occurs:
  - `firstFit` returns `curr + META_DATA_SIZE` (line 121) but `HmmAlloc`
    treats that value as the header (lines 140 and 155-175): it reads link
    fields out of the block's payload and hands out `curr + 2 * META`, while
    `HmmFree` steps back only one `META` (line 183). `HmmAlloc` below is the
    code as written; `HmmAllocFixed` steps back to the real header.
  - `split` places the new node at `node + blockSize + META` (line 98) but
    shrinks `node` to `blockSize` (line 108): a `META`-sized gap is lost.
  - `addfnode` writes `node->next = newNode` (line 56) and then computes the
    new length from `node->next` (line 59): a node added in the middle of
    the list gets length 0.
  - `calloc` multiplies without an overflow check (line 210).
  - `HmmAlloc` grows with `addfnode(Tail)` (line 147), which starts the new
    node at the end of `Tail`'s block, not at the old break. Handing out
    the last node moves `Tail` to a lower block (lines 160-165), so a later
    growth links free memory over a block still in use. `Grow` is the code
    as written; `GrowFixed` links the granted pages.
 */
module Hmm2 {
  import opened FreeList
  import opened Arena

  const PAGE: nat := 4096
  /** `sizeof(fnode)` on LP64. */
  const META: nat := 24

  datatype Heap = Heap(arena: Cursor, list: seq<Node>, tail: Option<nat>)

  /** One past the last byte of a node's block; the length counts the header. */
  function End(n: Node): nat { n.off + n.len }

  /** The test `(char *)curr + curr->length == (char *)curr->next`. */
  predicate Contiguous(a: Node, b: Node) { End(a) == b.off }

  /** `Tail` names the last node whenever the list is not empty. */
  predicate TailOk(h: Heap)
  {
    |h.list| > 0 ==> h.tail == Some(h.list[|h.list| - 1].off)
  }

  /** No node is physically contiguous with its list successor. */
  ghost predicate NoContiguous(xs: seq<Node>)
  {
    forall k :: 0 <= k < |xs| - 1 ==> !Contiguous(xs[k], xs[k + 1])
  }

  /** Every block ends inside the address space, below 2^64. */
  ghost predicate Fits(xs: seq<Node>)
  {
    forall k :: 0 <= k < |xs| ==> End(xs[k]) < WORD
  }

  /** Non-empty blocks of the address space that do not overlap. */
  ghost predicate Separate(xs: seq<Node>)
  {
    && Fits(xs)
    && (forall k :: 0 <= k < |xs| ==> xs[k].len > 0)
    && (forall i, j :: 0 <= i < j < |xs| ==> End(xs[i]) <= xs[j].off || End(xs[j]) <= xs[i].off)
  }

  /** Block `a` lies inside block `b`. */
  ghost predicate Within(a: Node, b: Node)
  {
    b.off <= a.off && End(a) <= End(b)
  }

  /** Block `n` lies inside some block of `ys`. */
  ghost predicate Inside(n: Node, ys: seq<Node>)
  {
    exists k :: 0 <= k < |ys| && Within(n, ys[k])
  }

  /** Every block of `xs` lies inside some block of `ys`. */
  ghost predicate CoveredBy(xs: seq<Node>, ys: seq<Node>)
  {
    forall j :: 0 <= j < |xs| ==> Inside(xs[j], ys)
  }

  lemma SeparateDistinct(xs: seq<Node>)
    requires Separate(xs)
    ensures Distinct(xs)
  {
  }

  // ---------------------------------------------------------------------
  // Initialisation and growth

  /** `freeListInit`: one page from the break becomes the only node,
      `Head == Tail`. A failed `sbreak` ends the process (`exit`). */
  function FreeListInit(h: Heap): (r: Outcome<Heap>)
    ensures r.Ok? <==> h.arena.brk + PAGE <= h.arena.cap
    ensures r.Exited? <==> !r.Ok?
    ensures r.Ok? ==> && |r.value.list| == 1
                      && r.value.list[0].off == h.arena.brk
                      && End(r.value.list[0]) == r.value.arena.brk
                      && r.value.arena == Cursor(h.arena.brk + PAGE, h.arena.cap)
                      && TailOk(r.value)
  {
    var (prior, a) := Sbreak(h.arena, PAGE);
    if prior.None? then Exited
    else
      var head := prior.value;
      Ok(Heap(a, [Node(head, a.brk - head)], Some(head)))
  }

  /** `addfnode(node)` for the node at index `i`: a new node at the end of
      `node`'s block, linked right after it; returns its offset too. */
  function AddFnode(h: Heap, i: nat): (r: (Heap, nat))
    requires i < |h.list|
    ensures r.1 == End(h.list[i])
    ensures r.0.arena == h.arena
    ensures |r.0.list| == |h.list| + 1
    ensures r.0.list[..i + 1] == h.list[..i + 1] && r.0.list[i + 2..] == h.list[i + 1..]
    ensures r.0.list[i + 1].off == r.1 && Contiguous(h.list[i], r.0.list[i + 1])
    // The new length is a `size_t`.
    ensures r.0.list[i + 1].len < WORD
    // `node` was last: the new node runs to the break and becomes `Tail`.
    ensures i + 1 == |h.list| ==> r.0.tail == Some(r.1)
    ensures i + 1 == |h.list| && r.1 <= h.arena.brk < WORD ==> End(r.0.list[i + 1]) == h.arena.brk
    // `node` had a successor: the length is read back through `node->next`,
    // which is already the new node, so it is 0.
    ensures i + 1 < |h.list| ==> r.0.list[i + 1].len == 0 && r.0.tail == h.tail
    ensures TailOk(h) ==> TailOk(r.0)
  {
    var node := h.list[i];
    var newOff := End(node);
    if i + 1 < |h.list| then
      var n := Node(newOff, SizeT(newOff - newOff));
      (h.(list := h.list[..i + 1] + [n] + h.list[i + 1..]), newOff)
    else
      var n := Node(newOff, SizeT(h.arena.brk - newOff));
      (h.(list := h.list + [n], tail := Some(newOff)), newOff)
  }

  // ---------------------------------------------------------------------
  // Coalescing

  /** `mergeNodes` from the node at index `i`: while `curr` is contiguous
      with its successor, absorb the successor and look at `curr` again;
      otherwise advance. Returns the list and `Tail`. */
  function MergeFrom(xs: seq<Node>, i: nat, tail: Option<nat>): (r: (seq<Node>, Option<nat>))
    requires i < |xs|
    requires forall k :: 0 <= k < i ==> !Contiguous(xs[k], xs[k + 1])
    ensures i < |r.0| <= |xs|
    ensures r.0[..i] == xs[..i] && r.0[i].off == xs[i].off
    ensures NoContiguous(r.0)
    decreases |xs| - i
  {
    if i + 1 == |xs| then (xs, tail)
    else if Contiguous(xs[i], xs[i + 1]) then
      AbsorbFacts(xs, i);
      // `if (nextNode == NULL) Tail = curr;`
      MergeFrom(Absorb(xs, i), i, if i + 2 == |xs| then Some(xs[i].off) else tail)
    else
      MergeFrom(xs, i + 1, tail)
  }

  /** `curr->length += curr->next->length; curr->next = curr->next->next`,
      the sum taken in `size_t`. */
  function Absorb(xs: seq<Node>, i: nat): seq<Node>
    requires i + 1 < |xs|
  {
    xs[..i] + [Node(xs[i].off, SizeT(xs[i].len + xs[i + 1].len))] + xs[i + 2..]
  }

  lemma AbsorbFacts(xs: seq<Node>, i: nat)
    requires i + 1 < |xs|
    requires forall k :: 0 <= k < i ==> !Contiguous(xs[k], xs[k + 1])
    ensures var ys := Absorb(xs, i);
            && |ys| == |xs| - 1
            && ys[..i] == xs[..i] && ys[i].off == xs[i].off
            && (forall k :: 0 <= k < i ==> !Contiguous(ys[k], ys[k + 1]))
            && ys[|ys| - 1].off == (if i + 2 == |xs| then xs[i].off else xs[|xs| - 1].off)
  {
    var ys := Absorb(xs, i);
    forall k | 0 <= k < i
      ensures !Contiguous(ys[k], ys[k + 1])
    {
      assert ys[k] == xs[k];
      if k + 1 < i { assert ys[k + 1] == xs[k + 1]; }
    }
  }

  /** Absorbing changes the byte count by a multiple of 2^64, and not at
      all when the two lengths add up below 2^64. */
  lemma AbsorbSum(xs: seq<Node>, i: nat)
    requires i + 1 < |xs|
    ensures (Sum(Absorb(xs, i)) - Sum(xs)) % WORD == 0
    ensures xs[i].len + xs[i + 1].len < WORD ==> Sum(Absorb(xs, i)) == Sum(xs)
  {
    SumAroundPair(xs, i);
    AbsorbSumParts(xs, i);
  }

  lemma AbsorbSumParts(xs: seq<Node>, i: nat)
    requires i + 1 < |xs|
    ensures Sum(Absorb(xs, i)) == Sum(xs[..i]) + SizeT(xs[i].len + xs[i + 1].len) + Sum(xs[i + 2..])
  {
    var m := Node(xs[i].off, SizeT(xs[i].len + xs[i + 1].len));
    SumSplice(xs[..i], [m], xs[i + 2..]);
    SumOne(m);
  }

  /** In the address space two contiguous blocks add up without wrapping,
      and the merged block still ends below 2^64. */
  lemma AbsorbFits(xs: seq<Node>, i: nat)
    requires i + 1 < |xs| && Contiguous(xs[i], xs[i + 1]) && Fits(xs)
    ensures xs[i].len + xs[i + 1].len < WORD
    ensures Fits(Absorb(xs, i))
  {
    var ys := Absorb(xs, i);
    assert End(xs[i + 1]) < WORD;
    forall k | 0 <= k < |ys|
      ensures End(ys[k]) < WORD
    {
      if k < i { assert ys[k] == xs[k]; }
      else if k == i { assert End(ys[k]) == End(xs[i + 1]); }
      else { assert ys[k] == xs[k + 1]; }
    }
  }

  /** Differences that are multiples of 2^64 add up to one. */
  lemma WrapTrans(a: int, b: int, c: int)
    requires (a - b) % WORD == 0 && (b - c) % WORD == 0
    ensures (a - c) % WORD == 0
  {
    var p, q := (a - b) / WORD, (b - c) / WORD;
    assert a - c == (p + q) * WORD;
  }

  /** Absorbing adds no offset to the list. */
  lemma AbsorbOffsets(xs: seq<Node>, i: nat)
    requires i + 1 < |xs|
    ensures Offsets(Absorb(xs, i)) <= Offsets(xs)
  {
    var ys := Absorb(xs, i);
    forall x | x in Offsets(ys)
      ensures x in Offsets(xs)
    {
      var k :| 0 <= k < |ys| && ys[k].off == x;
      if k < i { assert xs[k] == ys[k]; }
      else if k == i { assert xs[i].off == x; }
      else { assert xs[k + 1] == ys[k]; }
    }
  }

  /** The merged block covers both blocks it replaces. */
  lemma AbsorbCovers(xs: seq<Node>, i: nat)
    requires i + 1 < |xs| && Contiguous(xs[i], xs[i + 1]) && Fits(xs)
    ensures CoveredBy(xs, Absorb(xs, i))
  {
    AbsorbFits(xs, i);
    var ys := Absorb(xs, i);
    forall j | 0 <= j < |xs|
      ensures Inside(xs[j], ys)
    {
      if j < i { assert Within(xs[j], ys[j]); }
      else if j <= i + 1 { assert Within(xs[j], ys[i]); }
      else { assert Within(xs[j], ys[j - 1]); }
    }
  }

  lemma CoveredByRefl(xs: seq<Node>)
    ensures CoveredBy(xs, xs)
  {
    forall j | 0 <= j < |xs|
      ensures Inside(xs[j], xs)
    {
      assert Within(xs[j], xs[j]);
    }
  }

  lemma CoveredByTrans(xs: seq<Node>, ys: seq<Node>, zs: seq<Node>)
    requires CoveredBy(xs, ys) && CoveredBy(ys, zs)
    ensures CoveredBy(xs, zs)
  {
    forall j | 0 <= j < |xs|
      ensures Inside(xs[j], zs)
    {
      assert Inside(xs[j], ys);
      var k :| 0 <= k < |ys| && Within(xs[j], ys[k]);
      assert Inside(ys[k], zs);
      var l :| 0 <= l < |zs| && Within(ys[k], zs[l]);
      assert Within(xs[j], zs[l]);
    }
  }

  /** The merge pass only removes nodes (no new offsets appear) and keeps
      the total length modulo 2^64. When every block lies in the address
      space no length wraps: the total is kept exactly, and every original
      block ends up inside a block of the result, so only absorbed nodes
      leave the list. */
  lemma MergeConserves(xs: seq<Node>, i: nat, tail: Option<nat>)
    requires i < |xs|
    requires forall k :: 0 <= k < i ==> !Contiguous(xs[k], xs[k + 1])
    ensures var r := MergeFrom(xs, i, tail).0;
            && (Sum(r) - Sum(xs)) % WORD == 0
            && Offsets(r) <= Offsets(xs)
            && (Fits(xs) ==> Fits(r) && Sum(r) == Sum(xs) && CoveredBy(xs, r))
  {
    MergeWraps(xs, i, tail);
    if Fits(xs) {
      MergeFits(xs, i, tail);
    }
  }

  lemma {:induction false} MergeWraps(xs: seq<Node>, i: nat, tail: Option<nat>)
    requires i < |xs|
    requires forall k :: 0 <= k < i ==> !Contiguous(xs[k], xs[k + 1])
    ensures var r := MergeFrom(xs, i, tail).0;
            && (Sum(r) - Sum(xs)) % WORD == 0
            && Offsets(r) <= Offsets(xs)
    decreases |xs| - i, 1
  {
    if i + 1 == |xs| {
    } else if Contiguous(xs[i], xs[i + 1]) {
      MergeWrapsAbsorb(xs, i, tail);
    } else {
      MergeWraps(xs, i + 1, tail);
    }
  }

  /** The absorbing step of `MergeWraps`. */
  lemma {:induction false} MergeWrapsAbsorb(xs: seq<Node>, i: nat, tail: Option<nat>)
    requires i + 1 < |xs| && Contiguous(xs[i], xs[i + 1])
    requires forall k :: 0 <= k < i ==> !Contiguous(xs[k], xs[k + 1])
    ensures var r := MergeFrom(xs, i, tail).0;
            && (Sum(r) - Sum(xs)) % WORD == 0
            && Offsets(r) <= Offsets(xs)
    decreases |xs| - i, 0
  {
    var ys := Absorb(xs, i);
    var t := if i + 2 == |xs| then Some(xs[i].off) else tail;
    AbsorbFacts(xs, i);
    MergeWraps(ys, i, t);
    var r := MergeFrom(ys, i, t).0;
    assert MergeFrom(xs, i, tail).0 == r;
    AbsorbStepWraps(xs, i, r);
  }

  lemma {:induction false} MergeFits(xs: seq<Node>, i: nat, tail: Option<nat>)
    requires i < |xs| && Fits(xs)
    requires forall k :: 0 <= k < i ==> !Contiguous(xs[k], xs[k + 1])
    ensures var r := MergeFrom(xs, i, tail).0;
            Fits(r) && Sum(r) == Sum(xs) && CoveredBy(xs, r)
    decreases |xs| - i, 1
  {
    if i + 1 == |xs| {
      CoveredByRefl(xs);
    } else if Contiguous(xs[i], xs[i + 1]) {
      MergeFitsAbsorb(xs, i, tail);
    } else {
      MergeFits(xs, i + 1, tail);
    }
  }

  /** The absorbing step of `MergeFits`. */
  lemma {:induction false} MergeFitsAbsorb(xs: seq<Node>, i: nat, tail: Option<nat>)
    requires i + 1 < |xs| && Fits(xs) && Contiguous(xs[i], xs[i + 1])
    requires forall k :: 0 <= k < i ==> !Contiguous(xs[k], xs[k + 1])
    ensures var r := MergeFrom(xs, i, tail).0;
            Fits(r) && Sum(r) == Sum(xs) && CoveredBy(xs, r)
    decreases |xs| - i, 0
  {
    var ys := Absorb(xs, i);
    var t := if i + 2 == |xs| then Some(xs[i].off) else tail;
    AbsorbFacts(xs, i);
    AbsorbFits(xs, i);
    MergeFits(ys, i, t);
    var r := MergeFrom(ys, i, t).0;
    assert MergeFrom(xs, i, tail).0 == r;
    AbsorbStepFits(xs, i, r);
  }

  /** What the rest of the merge keeps after one absorption, it keeps
      modulo 2^64 from before that absorption. */
  lemma AbsorbStepWraps(xs: seq<Node>, i: nat, r: seq<Node>)
    requires i + 1 < |xs| && Contiguous(xs[i], xs[i + 1])
    requires (Sum(r) - Sum(Absorb(xs, i))) % WORD == 0
    requires Offsets(r) <= Offsets(Absorb(xs, i))
    ensures (Sum(r) - Sum(xs)) % WORD == 0 && Offsets(r) <= Offsets(xs)
  {
    AbsorbSum(xs, i);
    AbsorbOffsets(xs, i);
    WrapTrans(Sum(r), Sum(Absorb(xs, i)), Sum(xs));
  }

  /** On blocks in the address space, what the rest of the merge keeps
      after one absorption it keeps from before it, coverage included. */
  lemma AbsorbStepFits(xs: seq<Node>, i: nat, r: seq<Node>)
    requires i + 1 < |xs| && Contiguous(xs[i], xs[i + 1]) && Fits(xs)
    requires Sum(r) == Sum(Absorb(xs, i)) && CoveredBy(Absorb(xs, i), r)
    ensures Sum(r) == Sum(xs) && CoveredBy(xs, r)
  {
    AbsorbFits(xs, i);
    AbsorbSum(xs, i);
    AbsorbCovers(xs, i);
    CoveredByTrans(xs, Absorb(xs, i), r);
  }

  /** `t` is the offset of the last node of `xs`. */
  predicate NamesLast(xs: seq<Node>, t: Option<nat>)
  {
    |xs| > 0 && t == Some(xs[|xs| - 1].off)
  }

  /** `Tail` ends up naming the last node if it did before, and otherwise
      changes only to the node that absorbed the old last node. */
  lemma {:induction false} MergeTail(xs: seq<Node>, i: nat, tail: Option<nat>)
    requires i < |xs|
    requires forall k :: 0 <= k < i ==> !Contiguous(xs[k], xs[k + 1])
    ensures var r := MergeFrom(xs, i, tail);
            && (NamesLast(xs, tail) ==> NamesLast(r.0, r.1))
            && (r.1 == tail || NamesLast(r.0, r.1))
    decreases |xs| - i
  {
    if i + 1 == |xs| {
    } else if Contiguous(xs[i], xs[i + 1]) {
      var ys := Absorb(xs, i);
      var t := if i + 2 == |xs| then Some(xs[i].off) else tail;
      AbsorbFacts(xs, i);
      assert MergeFrom(xs, i, tail) == MergeFrom(ys, i, t);
      // `t` is either the old `Tail` or names the last node of `ys`.
      assert t == tail || NamesLast(ys, t);
      assert NamesLast(xs, tail) ==> NamesLast(ys, t);
      MergeTail(ys, i, t);
    } else {
      assert MergeFrom(xs, i, tail) == MergeFrom(xs, i + 1, tail);
      MergeTail(xs, i + 1, tail);
    }
  }

  /** `mergeNodes()`: the coalescing pass from `Head`. */
  function MergeNodes(h: Heap): (r: Heap)
    ensures r.arena == h.arena
    ensures (Sum(r.list) - Sum(h.list)) % WORD == 0
    ensures Fits(h.list) ==> Fits(r.list) && Sum(r.list) == Sum(h.list) && CoveredBy(h.list, r.list)
    ensures NoContiguous(r.list)
    ensures Offsets(r.list) <= Offsets(h.list)
    ensures |r.list| <= |h.list| && (|h.list| > 0 ==> |r.list| > 0 && r.list[0].off == h.list[0].off)
    ensures TailOk(h) ==> TailOk(r)
  {
    if |h.list| == 0 then h
    else
      MergeConserves(h.list, 0, h.tail);
      MergeTail(h.list, 0, h.tail);
      var (l, t) := MergeFrom(h.list, 0, h.tail);
      h.(list := l, tail := t)
  }

  // ---------------------------------------------------------------------
  // Search and split

  /** `split(node, blockSize)` for the node at index `i`. Nothing changes
      unless the node is larger than `blockSize + META`, both sides in
      `size_t`; the `Head == NULL` branch cannot be reached for a node on the
      list. */
  function Split(h: Heap, i: nat, blockSize: nat): (r: Heap)
    requires i < |h.list|
    ensures r.arena == h.arena
    ensures h.list[i].len <= SizeT(blockSize + META) ==> r == h
    ensures h.list[i].len > SizeT(blockSize + META) ==>
              && |r.list| == |h.list| + 1
              && r.list[..i] == h.list[..i] && r.list[i + 2..] == h.list[i + 1..]
              && r.list[i] == Node(h.list[i].off, blockSize)
              && r.list[i + 1].off == h.list[i].off + blockSize + META
              && r.list[i + 1].len < WORD
              && (h.list[i].len < WORD && blockSize + META < WORD ==> End(r.list[i + 1]) == End(h.list[i]))
              && (i + 1 == |h.list| ==> r.tail == Some(r.list[i + 1].off))
              && (i + 1 < |h.list| ==> r.tail == h.tail)
    ensures TailOk(h) ==> TailOk(r)
  {
    var node := h.list[i];
    if node.len > SizeT(blockSize + META) then
      var newNode := Node(node.off + blockSize + META, SizeT(node.len - blockSize - META));
      var tail := if i + 1 == |h.list| then Some(newNode.off) else h.tail;
      h.(list := h.list[..i] + [Node(node.off, blockSize), newNode] + h.list[i + 1..], tail := tail)
    else h
  }

  /** `firstFit(blockSize)`: a request below `META` is raised to `META`;
      the first node in list order that is long enough is split and the
      address one header past its start is returned. */
  function FirstFit(h: Heap, blockSize: nat): (r: (Heap, Option<nat>))
    ensures r.0.arena == h.arena
    ensures r.1.Some? ==> r.1.value >= META
    ensures var need := if blockSize < META then META else blockSize;
            && (r.1.None? <==> forall j :: 0 <= j < |h.list| ==> h.list[j].len < need)
            && (r.1.None? ==> r.0 == h)
            && (r.1.Some? ==> exists k :: && 0 <= k < |h.list|
                                           && h.list[k].len >= need
                                           && (forall j :: 0 <= j < k ==> h.list[j].len < need)
                                           && r.1.value == h.list[k].off + META)
  {
    var need := if blockSize < META then META else blockSize;
    match FirstAtLeast(h.list, need)
    case None => (h, None)
    case Some(k) => (Split(h, k, need), Some(h.list[k].off + META))
  }

  // ---------------------------------------------------------------------
  // Allocation

  /** Lines 129-139: raise to `META`, round up to a multiple of 8, add a header. */
  function TotalNeeded(size: nat): (r: nat)
    ensures r % 8 == 0
    ensures size + 31 < WORD ==>
              var bs := if size < META then META else size;
              && r - META >= bs
              && r - META < bs + 8
              && r >= 2 * META
  {
    var bs := if size < META then META else size;
    var a := Align8(bs);
    WrapKeeps8(a + META);
    assert bs + 31 < WORD ==> SizeT(a + META) == a + META;
    SizeT(a + META)
  }

  /** Wrapping modulo 2^64 keeps a multiple of 8 a multiple of 8. */
  lemma WrapKeeps8(x: nat)
    requires x % 8 == 0
    ensures SizeT(x) % 8 == 0
  {
    var q := x / WORD;
    assert SizeT(x) == x - q * WORD;
    assert q * WORD == 8 * (q * 0x2000_0000_0000_0000);
  }

  /** Lines 143-144: whole pages covering the request, `ceil(n / PAGE) * PAGE`. */
  function GrowBy(totalNeeded: nat): (r: nat)
    ensures r < WORD
    ensures totalNeeded + PAGE - 1 < WORD ==>
              && r % PAGE == 0
              && totalNeeded <= r < totalNeeded + PAGE
  {
    SizeT(SizeT(totalNeeded + PAGE - 1) / PAGE * PAGE)
  }

  /** Lines 155-173: take the node at index `j` off the list. */
  function Unlink(h: Heap, j: nat): (r: Heap)
    requires j < |h.list|
    ensures r.arena == h.arena
    ensures TailOk(h) && Distinct(h.list) ==>
              && r.list == h.list[..j] + h.list[j + 1..]
              && TailOk(r)
  {
    if j == 0 then h.(list := h.list[1..])
    else if h.tail == Some(h.list[j].off) then
      // `Tail = allocBlock->prev; Tail->next = NULL`
      h.(list := h.list[..j], tail := Some(h.list[j - 1].off))
    else h.(list := h.list[..j] + h.list[j + 1..])
  }

  datatype Alloc = Alloc(heap: Heap, ptr: Option<nat>)

  /** Treat `hdr` as the allocated block's header: unlink it and return the
      address past the header. Link fields of memory that is not a node on
      the list cannot be read. */
  function Take(h: Heap, hdr: nat): (r: Outcome<Alloc>)
    ensures r.Ok? <==> hdr in Offsets(h.list)
    ensures r.Ok? ==> r.value.ptr == Some(hdr + META) && r.value.heap.arena == h.arena
  {
    match IndexOf(h.list, hdr)
    case None => Undefined
    case Some(j) => Ok(Alloc(Unlink(h, j), Some(hdr + META)))
  }

  /** Where the break may be after an allocation: where it was, or moved by
      the page-rounded growth, under the same cap. */
  predicate MovedBy(before: Cursor, after: Cursor, grow: nat)
    requires grow < WORD
  {
    && after.cap == before.cap
    && (after.brk == before.brk || after.brk == before.brk + IntPtr(grow))
  }

  /** One `firstFit` search (lines 140 and 148) with `back` subtracted
      from the address it returns to find the header: 0 in the code as
      written, `META` in the corrected version. A hit takes that header; a
      miss gives NULL with the heap unchanged. */
  function Search(h: Heap, totalNeeded: nat, back: nat): (r: Outcome<Alloc>)
    requires back <= META
    ensures r.Ok? && r.value.ptr.Some? ==> r.value.ptr.value + back >= 2 * META
    ensures r.Ok? ==> r.value.heap.arena == h.arena
    ensures r.Ok? && r.value.ptr.None? ==> r.value.heap == h
  {
    var fit := FirstFit(h, totalNeeded);
    if fit.1.Some? then Take(fit.0, fit.1.value - back)
    else Ok(Alloc(h, None))
  }

  /** `HmmAlloc` after `Head` is set. A first search that misses grows the
      heap by whole pages, `addfnode(Tail)`, and searches once more; a
      second miss returns NULL. */
  function AllocFrom(h: Heap, totalNeeded: nat, back: nat): (r: Outcome<Alloc>)
    requires back <= META
    ensures r.Ok? && r.value.ptr.Some? ==> r.value.ptr.value + back >= 2 * META
    ensures r.Ok? ==> MovedBy(h.arena, r.value.heap.arena, GrowBy(totalNeeded))
    // NULL without growth only when `sbreak` refused the growth.
    ensures r.Ok? && r.value.ptr.None? && r.value.heap.arena.brk == h.arena.brk && GrowBy(totalNeeded) > 0 ==>
              !(0 <= h.arena.brk + IntPtr(GrowBy(totalNeeded)) <= h.arena.cap)
  {
    if FirstFit(h, totalNeeded).1.Some? then Search(h, totalNeeded, back)
    else
      match GrowWith(h, totalNeeded, back)
      case Ok(None) => Ok(Alloc(h, None))
      case Ok(Some(h3)) => Search(h3, totalNeeded, back)
      case _ => Undefined
  }

  /** Lines 143-147: `sbreak` by whole pages (NULL when refused), then
      `addfnode(Tail)`. */
  function Grow(h: Heap, totalNeeded: nat): (r: Outcome<Option<Heap>>)
    ensures r.Ok? && r.value.None? <==> !(0 <= h.arena.brk + IntPtr(GrowBy(totalNeeded)) <= h.arena.cap)
    ensures r.Ok? && r.value.Some? ==>
              r.value.value.arena == Cursor(h.arena.brk + IntPtr(GrowBy(totalNeeded)), h.arena.cap)
  {
    var (prior, a) := Sbreak(h.arena, IntPtr(GrowBy(totalNeeded)));
    if prior.None? then Ok(None)
    else
      match h.tail
      case None => Undefined          // addfnode(NULL)
      case Some(t) =>
        match IndexOf(h.list, t)
        case None => Undefined        // `Tail` is not a node on the list
        case Some(ti) => Ok(Some(AddFnode(h.(arena := a), ti).0))
  }

  /** The growth `HmmAlloc` performs after a miss: as written for `back`
      0, corrected for `back` equal to `META`. */
  function GrowWith(h: Heap, totalNeeded: nat, back: nat): (r: Outcome<Option<Heap>>)
    ensures r.Ok? && r.value.None? <==> !(0 <= h.arena.brk + IntPtr(GrowBy(totalNeeded)) <= h.arena.cap)
    ensures r.Ok? && r.value.Some? ==>
              r.value.value.arena == Cursor(h.arena.brk + IntPtr(GrowBy(totalNeeded)), h.arena.cap)
  {
    if back == META then GrowFixed(h, totalNeeded) else Grow(h, totalNeeded)
  }

  /** Growth as evidently intended: after the same `sbreak`, the new free
      node is the memory just granted, from the old break up to the new
      one, linked right after `Tail`. `Grow` instead starts it at the end
      of `Tail`'s block, which need not be the old break. */
  function GrowFixed(h: Heap, totalNeeded: nat): (r: Outcome<Option<Heap>>)
    ensures r.Ok? && r.value.None? <==> !(0 <= h.arena.brk + IntPtr(GrowBy(totalNeeded)) <= h.arena.cap)
    ensures r.Ok? && r.value.Some? ==>
              && r.value.value.arena == Cursor(h.arena.brk + IntPtr(GrowBy(totalNeeded)), h.arena.cap)
              && |r.value.value.list| == |h.list| + 1
    // With `Tail` on the last node, the granted bytes are linked last, as
    // the new `Tail`.
    ensures r.Ok? && r.value.Some? && TailOk(h) && Distinct(h.list) && |h.list| > 0 ==>
              && r.value.value.list == h.list + [Node(h.arena.brk, GrowBy(totalNeeded))]
              && TailOk(r.value.value)
  {
    var (prior, a) := Sbreak(h.arena, IntPtr(GrowBy(totalNeeded)));
    if prior.None? then Ok(None)
    else
      match h.tail
      case None => Undefined          // addfnode(NULL)
      case Some(t) =>
        match IndexOf(h.list, t)
        case None => Undefined        // `Tail` is not a node on the list
        case Some(ti) =>
          // `(size_t)(sbreak(0) - newNode)`
          var n := Node(prior.value, SizeT(a.brk - prior.value));
          var tail := if ti + 1 == |h.list| then Some(n.off) else h.tail;
          Ok(Some(Heap(a, h.list[..ti + 1] + [n] + h.list[ti + 1..], tail)))
  }

  /** `HmmAlloc` for a request already raised, aligned and given its header. */
  function AllocWith(h: Heap, totalNeeded: nat, back: nat): (r: Outcome<Alloc>)
    requires back <= META
    ensures r.Ok? && r.value.ptr.Some? ==> r.value.ptr.value + back >= 2 * META
  {
    if |h.list| == 0 then
      match FreeListInit(h)
      case Ok(h0) => AllocFrom(h0, totalNeeded, back)
      case _ => Exited
    else AllocFrom(h, totalNeeded, back)
  }

  /** `HmmAlloc(blockSize)` as written. */
  function HmmAlloc(h: Heap, size: nat): (r: Outcome<Alloc>)
    ensures r.Ok? && r.value.ptr.Some? ==> r.value.ptr.value >= 2 * META
  {
    AllocWith(h, TotalNeeded(size), 0)
  }

  /** `HmmAlloc` with the header taken as `firstFit(...) - META`. */
  function HmmAllocFixed(h: Heap, size: nat): (r: Outcome<Alloc>)
    ensures r.Ok? && r.value.ptr.Some? ==> r.value.ptr.value >= META
  {
    AllocWith(h, TotalNeeded(size), META)
  }

  // ---------------------------------------------------------------------
  // Release and the libc wrappers

  /** `HmmFree(ptr)`. `word` is the value in the `length` field of the
      header at `ptr - META`; memory contents are not part of this model.
      The block is pushed at `Head` (its `prev` NULL, the old `Head`'s
      `prev` pointing to it) and the merge pass runs. */
  function HmmFree(h: Heap, ptr: Option<nat>, word: nat): (r: Outcome<Heap>)
    requires word < WORD
    ensures ptr.None? ==> r == Ok(h)
    ensures ptr.Some? && r.Ok? ==>
              && ptr.value >= META
              && NoContiguous(r.value.list)
              && |r.value.list| > 0 && r.value.list[0].off == ptr.value - META
    ensures ptr.Some? && |h.list| > 0 ==>
              && (r.Ok? <==> ptr.value >= META && ptr.value - META !in Offsets(h.list))
              && (r.Ok? ==> Pushed(h, r.value, Node(ptr.value - META, word)))
    ensures r.Ok? && TailOk(h) ==> TailOk(r.value)
  {
    match ptr
    case None => Ok(h)
    case Some(p) =>
      if p < META then Undefined      // the header would lie below the heap
      else
        var h0 := if |h.list| == 0 then FreeListInit(h) else Ok(h);
        match h0
        case Ok(h1) =>
          // Pushing a node that is already linked makes the list cyclic,
          // which the model does not represent.
          if p - META in Offsets(h1.list) then Undefined
          else Push(h1, Node(p - META, word))
        case _ => Exited
  }

  /** What pushing `n` and merging makes of `before`: the list starts at
      `n` with no two list neighbours contiguous, the length fields gain
      `n.len` modulo 2^64 (exactly, when every block lies in the address
      space), no offset other than `n`'s is new, the break is untouched and
      `Tail` still names the last node. */
  ghost predicate Pushed(before: Heap, after: Heap, n: Node)
  {
    && NoContiguous(after.list) && |after.list| > 0 && after.list[0].off == n.off
    && (Sum(after.list) - Sum(before.list) - n.len) % WORD == 0
    && (Fits([n] + before.list) ==> Fits(after.list) && Sum(after.list) == Sum(before.list) + n.len)
    && Offsets(after.list) <= Offsets(before.list) + {n.off}
    && after.arena == before.arena
    && (TailOk(before) ==> TailOk(after))
  }

  /** Lines 189-196 for a block that is not on the list. */
  function Push(h: Heap, n: Node): (r: Outcome<Heap>)
    requires |h.list| > 0
    ensures r.Ok? && Pushed(h, r.value, n)
  {
    var pushed := h.(list := [n] + h.list);
    SumConcat([n], h.list);
    SumOne(n);
    assert Offsets(pushed.list) == Offsets(h.list) + {n.off};
    Ok(MergeNodes(pushed))
  }

  datatype Resized = Resized(heap: Heap, ptr: Option<nat>, copied: nat)

  /** `realloc(ptr, size)`, following the cases of section 7.22.3.5 of ISO
      C11: a NULL pointer allocates, size 0 frees, otherwise allocate, copy
      `min(oldSize, size)` bytes and free the old block only when the new
      allocation succeeded. `oldLen` is the old header's `length`, read both
      as `oldSize` and by `HmmFree`; since it counts the header, the copy
      may read up to `META` bytes past the old payload. `back` selects the
      allocator as in `AllocWith`: 0 is the code as written, `META` the
      corrected header arithmetic. */
  function Realloc(h: Heap, ptr: Option<nat>, size: nat, oldLen: nat, back: nat): (r: Outcome<Resized>)
    requires oldLen < WORD && back <= META
    ensures var a := AllocWith(h, TotalNeeded(size), back);
            ptr.None? ==>
              && (r.Ok? <==> a.Ok?)
              && (r.Ok? ==> r.value.heap == a.value.heap && r.value.ptr == a.value.ptr && r.value.copied == 0)
    ensures ptr.Some? && size == 0 ==>
              && (r.Ok? <==> HmmFree(h, ptr, oldLen).Ok?)
              && (r.Ok? ==> && r.value.ptr.None?
                            && r.value.heap == HmmFree(h, ptr, oldLen).value
                            && r.value.copied == 0)
    ensures var a := AllocWith(h, TotalNeeded(size), back);
            ptr.Some? && size > 0 ==>
              && (r.Ok? ==> a.Ok?)
              && (a.Ok? && a.value.ptr.None? ==> r == Ok(Resized(a.value.heap, None, 0)))
              && (a.Ok? && a.value.ptr.Some? ==>
                    && (r.Ok? <==> HmmFree(a.value.heap, ptr, oldLen).Ok?)
                    && (r.Ok? ==> && r.value.ptr == a.value.ptr
                                  && r.value.copied == (if oldLen < size then oldLen else size)
                                  && r.value.heap == HmmFree(a.value.heap, ptr, oldLen).value))
  {
    if ptr.None? then
      match AllocWith(h, TotalNeeded(size), back)
      case Ok(a) => Ok(Resized(a.heap, a.ptr, 0))
      case Exited => Exited
      case Undefined => Undefined
    else if size == 0 then
      match HmmFree(h, ptr, oldLen)
      case Ok(h1) => Ok(Resized(h1, None, 0))
      case Exited => Exited
      case Undefined => Undefined
    else
      match AllocWith(h, TotalNeeded(size), back)
      case Ok(a) =>
        if a.ptr.None? then Ok(Resized(a.heap, None, 0))
        else
          var copied := if oldLen < size then oldLen else size;
          (match HmmFree(a.heap, ptr, oldLen)
           case Ok(h2) => Ok(Resized(h2, a.ptr, copied))
           case Exited => Exited
           case Undefined => Undefined)
      case Exited => Exited
      case Undefined => Undefined
  }

  datatype Zeroed = Zeroed(heap: Heap, ptr: Option<nat>, zeroed: nat)

  /** The product `num * size` before it is taken modulo 2^64, as repeated
      addition; `MulIsProduct` shows it is the product. */
  function Mul(a: nat, b: nat): nat
  {
    if a == 0 then 0 else Mul(a - 1, b) + b
  }

  lemma {:induction false} MulIsProduct(a: nat, b: nat)
    ensures Mul(a, b) == a * b
  {
    if a > 0 {
      MulIsProduct(a - 1, b);
      assert (a - 1) * b + b == a * b;
    }
  }

  /** `calloc(num, size)`: allocate `num * size` bytes, computed in
      `size_t` without an overflow check, and zero them on success. `back`
      selects the allocator as in `AllocWith`. */
  function Calloc(h: Heap, num: nat, size: nat, back: nat): (r: Outcome<Zeroed>)
    requires back <= META
    ensures var a := AllocWith(h, TotalNeeded(SizeT(Mul(num, size))), back);
            && (r.Ok? <==> a.Ok?)
            && (r.Ok? ==> r.value.heap == a.value.heap && r.value.ptr == a.value.ptr)
            && (r.Ok? && r.value.ptr.Some? ==> r.value.zeroed == SizeT(Mul(num, size)))
            && (r.Ok? && r.value.ptr.None? ==> r.value.zeroed == 0)
  {
    var total := SizeT(Mul(num, size));
    match AllocWith(h, TotalNeeded(total), back)
    case Ok(a) => Ok(Zeroed(a.heap, a.ptr, if a.ptr.Some? then total else 0))
    case Exited => Exited
    case Undefined => Undefined
  }

  // ---------------------------------------------------------------------
  // Properties

  /** The split defect: the kept part and the new node leave a `META`-byte
      hole between them, and the list's total length drops by `META`. */
  lemma SplitLeavesGap(h: Heap, i: nat, blockSize: nat)
    requires i < |h.list| && blockSize + META < h.list[i].len < WORD
    ensures var r := Split(h, i, blockSize);
            && End(r.list[i]) + META == r.list[i + 1].off
            && Sum(r.list) + META == Sum(h.list)
  {
    var r := Split(h, i, blockSize);
    var node := h.list[i];
    var a := Node(node.off, blockSize);
    var b := Node(node.off + blockSize + META, node.len - blockSize - META);
    assert r.list == h.list[..i] + [a, b] + h.list[i + 1..];
    assert h.list == h.list[..i] + [node] + h.list[i + 1..];
    SumSplice(h.list[..i], [a, b], h.list[i + 1..]);
    SumSplice(h.list[..i], [node], h.list[i + 1..]);
    SumTwo(a, b);
    SumOne(node);
  }

  /** The nodes of `xs` after splitting node `k` at `bs` with a gap. */
  function SplitList(xs: seq<Node>, k: nat, bs: nat): seq<Node>
    requires k < |xs| && xs[k].len > bs + META
  {
    xs[..k] + [Node(xs[k].off, bs), Node(xs[k].off + bs + META, xs[k].len - bs - META)] + xs[k + 1..]
  }

  /** Splitting keeps blocks separate: both parts lie inside the old block. */
  lemma SplitKeepsSeparate(xs: seq<Node>, k: nat, bs: nat)
    requires Separate(xs) && k < |xs| && 0 < bs && xs[k].len > bs + META
    ensures Separate(SplitList(xs, k, bs))
  {
    var ys := SplitList(xs, k, bs);
    forall i, j | 0 <= i < j < |ys|
      ensures End(ys[i]) <= ys[j].off || End(ys[j]) <= ys[i].off
    {
      var oi := if i <= k then i else if i == k + 1 then k else i - 1;
      var oj := if j <= k then j else if j == k + 1 then k else j - 1;
      assert Within(ys[i], xs[oi]);
      assert Within(ys[j], xs[oj]);
      if oi != oj {
        assert oi < oj;
      }
    }
  }

  /** Removing a node keeps the rest separate. */
  lemma RemoveKeepsSeparate(xs: seq<Node>, k: nat)
    requires Separate(xs) && k < |xs|
    ensures Separate(xs[..k] + xs[k + 1..])
  {
    var ys := xs[..k] + xs[k + 1..];
    forall i, j | 0 <= i < j < |ys|
      ensures End(ys[i]) <= ys[j].off || End(ys[j]) <= ys[i].off
    {
      var oi := if i < k then i else i + 1;
      var oj := if j < k then j else j + 1;
      assert ys[i] == xs[oi] && ys[j] == xs[oj];
    }
  }

  /** In a separate list, no node starts one header into a block of at least
      `2 * META` bytes. */
  lemma NoHeaderInside(xs: seq<Node>, k: nat)
    requires Separate(xs) && k < |xs| && xs[k].len >= 2 * META
    ensures forall j :: 0 <= j < |xs| ==> xs[j].off != xs[k].off + META
  {
    forall j | 0 <= j < |xs|
      ensures xs[j].off != xs[k].off + META
    {
      if j < k {
        assert End(xs[j]) <= xs[k].off || End(xs[k]) <= xs[j].off;
      } else if j > k {
        assert End(xs[k]) <= xs[j].off || End(xs[j]) <= xs[k].off;
      }
    }
  }

  /** On a non-empty list whose search hits, allocation is the search
      followed by taking the header `back` bytes before the returned address. */
  lemma AllocWithHit(h: Heap, totalNeeded: nat, back: nat)
    requires back <= META && |h.list| > 0
    requires FirstFit(h, totalNeeded).1.Some?
    ensures var fit := FirstFit(h, totalNeeded);
            AllocWith(h, totalNeeded, back) == Take(fit.0, fit.1.value - back)
  {
    AllocWithSkipsInit(h, totalNeeded, back);
    AllocFromHit(h, totalNeeded, back);
  }

  /** A non-empty list is searched as it is. */
  lemma AllocWithSkipsInit(h: Heap, totalNeeded: nat, back: nat)
    requires back <= META && |h.list| > 0
    ensures AllocWith(h, totalNeeded, back) == AllocFrom(h, totalNeeded, back)
  {
  }

  /** A first search that hits takes the block it found. */
  lemma AllocFromHit(h: Heap, totalNeeded: nat, back: nat)
    requires back <= META
    requires FirstFit(h, totalNeeded).1.Some?
    ensures var fit := FirstFit(h, totalNeeded);
            AllocFrom(h, totalNeeded, back) == Take(fit.0, fit.1.value - back)
  {
    assert AllocFrom(h, totalNeeded, back) == Search(h, totalNeeded, back);
  }

  /** The split part of a first-fit hit on a separate list: the list stays
      separate, and the chosen block keeps its offset and holds `need`. */
  lemma SplitHit(h: Heap, need: nat)
    requires Separate(h.list) && 0 < need && need + META < WORD
    requires FirstAtLeast(h.list, need).Some?
    ensures var k := FirstAtLeast(h.list, need).value;
            var s := Split(h, k, need);
            && k < |s.list|
            && Separate(s.list)
            && s.list[k].off == h.list[k].off
            && s.list[k].len >= need
  {
    var k := FirstAtLeast(h.list, need).value;
    var s := Split(h, k, need);
    assert End(h.list[k]) < WORD;
    if h.list[k].len > need + META {
      SplitIsSplitList(h, k, need);
      SplitKeepsSeparate(h.list, k, need);
      assert s.list[k] == Node(h.list[k].off, need);
    } else {
      assert s == h;
    }
  }

  lemma SplitIsSplitList(h: Heap, k: nat, need: nat)
    requires k < |h.list| && need + META < h.list[k].len < WORD
    ensures Split(h, k, need).list == SplitList(h.list, k, need)
  {
  }

  /** The header mix-up as written: whenever the first-fit search succeeds
      on a list of separate blocks, `HmmAlloc` goes on to read the link
      fields of `curr + META`, which is payload and not a node. */
  lemma HmmAllocHitIsUndefined(h: Heap, size: nat)
    requires |h.list| > 0 && Separate(h.list)
    requires size + 55 < WORD
    requires FirstAtLeast(h.list, TotalNeeded(size)).Some?
    ensures HmmAlloc(h, size) == Undefined
  {
    var need := TotalNeeded(size);
    var k := FirstAtLeast(h.list, need).value;
    var s := Split(h, k, need);
    FirstFitHit(h, need);
    AllocWithHit(h, TotalNeeded(size), 0);
    SplitHit(h, need);
    NoHeaderInside(s.list, k);
    assert IndexOfFrom(s.list, h.list[k].off + META, 0).None?;
  }

  /** With the header found at `firstFit(...) - META`, a hit hands out the
      first block that fits: its payload holds the request, it leaves the
      list, and the remaining blocks stay separate and clear of it. */
  lemma HmmAllocFixedHit(h: Heap, size: nat)
    requires |h.list| > 0 && Separate(h.list) && TailOk(h)
    requires size + 55 < WORD
    requires FirstAtLeast(h.list, TotalNeeded(size)).Some?
    ensures var k := FirstAtLeast(h.list, TotalNeeded(size)).value;
            var s := Split(h, k, TotalNeeded(size));
            var r := HmmAllocFixed(h, size);
            && s.list[k].off == h.list[k].off
            && s.list[k].len - META >= size
            && r.Ok? && r.value.ptr == Some(h.list[k].off + META)
            && r.value.heap.list == s.list[..k] + s.list[k + 1..]
            && Separate(r.value.heap.list)
            && TailOk(r.value.heap)
            && (forall j :: 0 <= j < |r.value.heap.list| ==>
                  End(r.value.heap.list[j]) <= s.list[k].off || End(s.list[k]) <= r.value.heap.list[j].off)
  {
    var need := TotalNeeded(size);
    var k := FirstAtLeast(h.list, need).value;
    var s := Split(h, k, need);
    FixedHitTakes(h, size);
    SplitHit(h, need);
    assert HmmAllocFixed(h, size) == Take(s, s.list[k].off);
    TakeSeparate(s, k);
  }

  /** Taking the header of a node of a separate list unlinks exactly that
      node; the rest stays separate and clear of it. */
  lemma TakeSeparate(s: Heap, k: nat)
    requires k < |s.list| && Separate(s.list) && TailOk(s)
    ensures var t := Take(s, s.list[k].off);
            && t.Ok? && t.value.ptr == Some(s.list[k].off + META)
            && t.value.heap.list == s.list[..k] + s.list[k + 1..]
            && Separate(t.value.heap.list)
            && TailOk(t.value.heap)
            && (forall j :: 0 <= j < |t.value.heap.list| ==>
                  End(t.value.heap.list[j]) <= s.list[k].off || End(s.list[k]) <= t.value.heap.list[j].off)
  {
    TakeNode(s, k);
    UnlinkSeparate(s, k);
  }

  /** On a hit the fixed allocation takes the header at the chosen node. */
  lemma FixedHitTakes(h: Heap, size: nat)
    requires |h.list| > 0 && size + 31 < WORD
    requires FirstAtLeast(h.list, TotalNeeded(size)).Some?
    ensures var k := FirstAtLeast(h.list, TotalNeeded(size)).value;
            HmmAllocFixed(h, size) == Take(Split(h, k, TotalNeeded(size)), h.list[k].off)
  {
    var tn := TotalNeeded(size);
    var k := FirstAtLeast(h.list, tn).value;
    assert tn >= META;
    FirstFitHit(h, tn);
    var fit := FirstFit(h, tn);
    assert fit.0 == Split(h, k, tn) && fit.1.value - META == h.list[k].off;
    AllocWithHit(h, tn, META);
    assert HmmAllocFixed(h, size) == AllocWith(h, tn, META);
  }

  /** `firstFit` on a hit, for a request of at least `META` bytes. */
  lemma FirstFitHit(h: Heap, need: nat)
    requires need >= META
    requires FirstAtLeast(h.list, need).Some?
    ensures var k := FirstAtLeast(h.list, need).value;
            FirstFit(h, need) == (Split(h, k, need), Some(h.list[k].off + META))
  {
  }

  /** Taking a node, at `hdr`, of a separate list whose `Tail` names its
      last node leaves the list without that node, in the same arena. */
  lemma TakeUnlinks(s: Heap, k: nat, hdr: nat)
    requires k < |s.list| && Separate(s.list) && TailOk(s) && s.list[k].off == hdr
    ensures var t := Take(s, hdr);
            && t.Ok? && t.value.ptr == Some(hdr + META)
            && t.value.heap.arena == s.arena
            && t.value.heap.list == s.list[..k] + s.list[k + 1..]
  {
    TakeNode(s, k);
    SeparateDistinct(s.list);
  }

  /** Taking the header of a node of a separate list unlinks that node. */
  lemma TakeNode(s: Heap, k: nat)
    requires k < |s.list| && Separate(s.list)
    ensures Take(s, s.list[k].off) == Ok(Alloc(Unlink(s, k), Some(s.list[k].off + META)))
  {
    SeparateDistinct(s.list);
    assert IndexOf(s.list, s.list[k].off) == Some(k);
  }

  /** Unlinking a node of a separate list leaves the rest separate and
      clear of the unlinked block. */
  lemma UnlinkSeparate(s: Heap, k: nat)
    requires k < |s.list| && Separate(s.list) && TailOk(s)
    ensures var u := Unlink(s, k);
            && u.list == s.list[..k] + s.list[k + 1..]
            && Separate(u.list)
            && TailOk(u)
            && (forall j :: 0 <= j < |u.list| ==>
                  End(u.list[j]) <= s.list[k].off || End(s.list[k]) <= u.list[j].off)
  {
    SeparateDistinct(s.list);
    var u := Unlink(s, k);
    RemoveKeepsSeparate(s.list, k);
    var b := s.list[k];
    forall j | 0 <= j < |u.list|
      ensures End(u.list[j]) <= b.off || End(b) <= u.list[j].off
    {
      if j < k {
        assert u.list[j] == s.list[j];
      } else {
        assert u.list[j] == s.list[j + 1];
      }
    }
  }

  /** A heap on which the corrected allocator's growth path is sound: the
      blocks are separate, `Tail` names the last node, every free block ends
      at or below the break, and the cap lies in the positive range of
      `intptr_t`. */
  ghost predicate UnderBreak(h: Heap)
  {
    && |h.list| > 0 && Separate(h.list) && TailOk(h)
    && (forall j :: 0 <= j < |h.list| ==> End(h.list[j]) <= h.arena.brk)
    && h.arena.cap < WORD / 2
  }

  /** On an empty list the corrected allocation first builds the one-page
      list, which is an `UnderBreak` heap, and then allocates from it; a refused
      page ends the process. */
  lemma HmmAllocFixedEmpty(h: Heap, size: nat)
    requires |h.list| == 0 && h.arena.cap < WORD / 2
    ensures h.arena.brk + PAGE > h.arena.cap ==> HmmAllocFixed(h, size) == Exited
    ensures h.arena.brk + PAGE <= h.arena.cap ==>
              && UnderBreak(FreeListInit(h).value)
              && HmmAllocFixed(h, size) == HmmAllocFixed(FreeListInit(h).value, size)
  {
    if h.arena.brk + PAGE <= h.arena.cap {
      var h0 := FreeListInit(h).value;
      AllocWithSkipsInit(h0, TotalNeeded(size), META);
    }
  }

  /** A miss whose growth `sbrk` refuses returns NULL and changes nothing. */
  lemma HmmAllocFixedRefused(h: Heap, size: nat)
    requires |h.list| > 0
    requires FirstFit(h, TotalNeeded(size)).1.None?
    requires !(0 <= h.arena.brk + IntPtr(GrowBy(TotalNeeded(size))) <= h.arena.cap)
    ensures HmmAllocFixed(h, size) == Ok(Alloc(h, None))
  {
    var tn := TotalNeeded(size);
    AllocWithSkipsInit(h, tn, META);
    assert GrowFixed(h, tn) == Ok(None);
  }

  /** The heap after growth to break `b` that links one block from `e` up
      to `b` last, as the new `Tail`. Corrected growth has `e` the old
      break. */
  function Grown(h: Heap, e: nat, b: nat): Heap
    requires e <= b
  {
    Heap(Cursor(b, h.arena.cap), h.list + [Node(e, b - e)], Some(e))
  }

  /** What taking the grown block needs: a miss on `h`, and growth that
      appends the block from `e` up to break `b` and leaves a separate list
      with `Tail` on its last node. */
  ghost predicate Appended(h: Heap, tn: nat, e: nat, b: nat)
  {
    && |h.list| > 0 && 2 * META <= tn && tn + META < WORD && b < WORD
    && FirstAtLeast(h.list, tn).None? && e + tn <= b
    && Separate(Grown(h, e, b).list) && TailOk(Grown(h, e, b))
  }

  /** A miss whose growth appends one block from the old break up to the
      new break `b`, keeping the list separate (which `GrowAdds` shows for
      every `UnderBreak` heap), hands out that block: its header is the old
      break, it holds the request, and at most the remainder of the new
      space is added to the list, running to `b`. */
  lemma HmmAllocFixedGrows(h: Heap, size: nat, b: nat)
    requires size + 55 < WORD && Appended(h, TotalNeeded(size), h.arena.brk, b)
    requires GrowFixed(h, TotalNeeded(size)) == Ok(Some(Grown(h, h.arena.brk, b)))
    ensures TotalNeeded(size) - META >= size
    ensures HandsOutAppended(h, TotalNeeded(size), h.arena.brk, b, HmmAllocFixed(h, size))
  {
    FixedGrowsTakes(h, size, b);
    TakeAppended(h, TotalNeeded(size), h.arena.brk, b);
  }

  /** The same growth keeps the list separate with `Tail` on its last
      node, every linked block clear of the block handed out. */
  lemma HmmAllocFixedGrowsSafe(h: Heap, size: nat, b: nat)
    requires size + 55 < WORD && Appended(h, TotalNeeded(size), h.arena.brk, b)
    requires GrowFixed(h, TotalNeeded(size)) == Ok(Some(Grown(h, h.arena.brk, b)))
    ensures var e := h.arena.brk;
            var r := HmmAllocFixed(h, size);
            && r.Ok? && Separate(r.value.heap.list) && TailOk(r.value.heap)
            && (forall j :: 0 <= j < |r.value.heap.list| ==>
                  End(r.value.heap.list[j]) <= e || e + TotalNeeded(size) <= r.value.heap.list[j].off)
  {
    FixedGrowsTakes(h, size, b);
    TakeAppendedSafe(h, TotalNeeded(size), h.arena.brk, b);
  }

  /** On a miss whose growth appends the block up to break `b`, the
      corrected allocation is the take of that block, split to the request. */
  lemma FixedGrowsTakes(h: Heap, size: nat, b: nat)
    requires |h.list| > 0 && size + 31 < WORD
    requires FirstAtLeast(h.list, TotalNeeded(size)).None?
    requires h.arena.brk + TotalNeeded(size) <= b
    requires GrowFixed(h, TotalNeeded(size)) == Ok(Some(Grown(h, h.arena.brk, b)))
    ensures HmmAllocFixed(h, size) == Take(Split(Grown(h, h.arena.brk, b), |h.list|, TotalNeeded(size)), h.arena.brk)
  {
    var tn := TotalNeeded(size);
    var g := Grown(h, h.arena.brk, b);
    FixedMissRetries(h, size, g);
    LastFits(h, tn, g);
    RetryHitTakes(g, tn, |h.list|);
    assert g.list[|h.list|].off == h.arena.brk;
  }

  /** A first search that misses, with growth that yields `h3`, is the
      second search on `h3`. */
  lemma FixedMissRetries(h: Heap, size: nat, h3: Heap)
    requires |h.list| > 0 && size + 31 < WORD
    requires FirstAtLeast(h.list, TotalNeeded(size)).None?
    requires GrowFixed(h, TotalNeeded(size)) == Ok(Some(h3))
    ensures HmmAllocFixed(h, size) == Search(h3, TotalNeeded(size), META)
  {
    var tn := TotalNeeded(size);
    AllocWithSkipsInit(h, tn, META);
    assert FirstFit(h, tn) == (h, None);
  }

  /** An allocation of `tn` bytes that hands out the block appended at
      `e` on growth to break `b`: the pointer is one header past `e`, the
      break is `b`, and the list is `h`'s nodes followed by the split's
      remainder, running to `b`, when there is one. */
  predicate HandsOutAppended(h: Heap, tn: nat, e: nat, b: nat, r: Outcome<Alloc>)
  {
    && r.Ok? && r.value.ptr == Some(e + META)
    && r.value.heap.arena == Cursor(b, h.arena.cap)
    && (b - e > tn + META ==>
          var l := r.value.heap.list;
          && |l| == |h.list| + 1 && l[..|h.list|] == h.list
          && l[|h.list|].off == e + tn + META && End(l[|h.list|]) == b)
    && (b - e <= tn + META ==> r.value.heap.list == h.list)
  }

  /** Taking the block appended at `e`, after its split, hands it out. */
  lemma TakeAppended(h: Heap, tn: nat, e: nat, b: nat)
    requires Appended(h, tn, e, b)
    ensures HandsOutAppended(h, tn, e, b, Take(Split(Grown(h, e, b), |h.list|, tn), e))
  {
    var n := |h.list|;
    var g := Grown(h, e, b);
    LastFits(h, tn, g);
    TakeSplit(g, tn, n, e);
    SplitLast(h, tn, e, b);
  }

  /** Taking the first fitting node, at `hdr`, after its split: the take
      succeeds there and the list loses exactly that node. */
  lemma TakeSplit(g: Heap, tn: nat, k: nat, hdr: nat)
    requires Separate(g.list) && TailOk(g) && 0 < tn && tn + META < WORD
    requires FirstAtLeast(g.list, tn) == Some(k) && g.list[k].off == hdr
    ensures var s := Split(g, k, tn);
            var t := Take(s, hdr);
            && k < |s.list|
            && t.Ok? && t.value.ptr == Some(hdr + META)
            && t.value.heap.arena == g.arena
            && t.value.heap.list == s.list[..k] + s.list[k + 1..]
  {
    SplitHit(g, tn);
    TakeUnlinks(Split(g, k, tn), k, hdr);
  }

  /** After taking the appended block the list stays separate, `Tail`
      names its last node, and every linked block is clear of the block
      handed out. */
  lemma TakeAppendedSafe(h: Heap, tn: nat, e: nat, b: nat)
    requires Appended(h, tn, e, b)
    ensures var t := Take(Split(Grown(h, e, b), |h.list|, tn), e);
            && t.Ok?
            && Separate(t.value.heap.list) && TailOk(t.value.heap)
            && (forall j :: 0 <= j < |t.value.heap.list| ==>
                  End(t.value.heap.list[j]) <= e || e + tn <= t.value.heap.list[j].off)
  {
    var g := Grown(h, e, b);
    LastFits(h, tn, g);
    TakeSplitSafe(g, tn, |h.list|, e);
  }

  /** Taking the first fitting node, at `hdr`, after its split keeps the
      list separate with `Tail` on its last node, and every block left on
      the list is clear of the `tn` bytes handed out from `hdr`. */
  lemma TakeSplitSafe(g: Heap, tn: nat, k: nat, hdr: nat)
    requires Separate(g.list) && TailOk(g) && 0 < tn && tn + META < WORD
    requires FirstAtLeast(g.list, tn) == Some(k) && g.list[k].off == hdr
    ensures var t := Take(Split(g, k, tn), hdr);
            && t.Ok? && Separate(t.value.heap.list) && TailOk(t.value.heap)
            && (forall j :: 0 <= j < |t.value.heap.list| ==>
                  End(t.value.heap.list[j]) <= hdr || hdr + tn <= t.value.heap.list[j].off)
  {
    var s := Split(g, k, tn);
    SplitHit(g, tn);
    TakeSeparate(s, k);
    assert hdr + tn <= End(s.list[k]);
  }

  /** A hit of the second search takes the header at the chosen node. */
  lemma RetryHitTakes(h: Heap, tn: nat, k: nat)
    requires META <= tn
    requires FirstAtLeast(h.list, tn) == Some(k)
    ensures Search(h, tn, META) == Take(Split(h, k, tn), h.list[k].off)
  {
    var fit := FirstFit(h, tn);
    FirstFitHit(h, tn);
    assert fit == (Split(h, k, tn), Some(h.list[k].off + META));
    assert fit.1.value - META == h.list[k].off;
  }

  /** When no block of `h` fits, the first block of `h3` that fits is the
      appended one. */
  lemma LastFits(h: Heap, tn: nat, h3: Heap)
    requires |h3.list| == |h.list| + 1 && h3.list[..|h.list|] == h.list
    requires h3.list[|h.list|].len >= tn
    requires FirstAtLeast(h.list, tn).None?
    ensures FirstAtLeast(h3.list, tn) == Some(|h.list|)
  {
    assert forall j :: 0 <= j < |h.list| ==> h3.list[j] == h.list[j];
  }

  /** The split of the appended block keeps `h`'s nodes in front of it. */
  lemma SplitLast(h: Heap, tn: nat, e: nat, b: nat)
    requires |h.list| > 0 && tn + META < WORD && e < b < WORD
    ensures var n := |h.list|;
            var s := Split(Grown(h, e, b), n, tn);
            && n < |s.list| && s.list[n].off == e
            && (b - e > tn + META ==>
                  var l := s.list[..n] + s.list[n + 1..];
                  && |l| == n + 1 && l[..n] == h.list
                  && l[n].off == e + tn + META && End(l[n]) == b)
            && (b - e <= tn + META ==> s.list[..n] + s.list[n + 1..] == h.list)
  {
    var n := |h.list|;
    assert Grown(h, e, b).list[..n] == h.list;
  }

  /** Granted corrected growth on an `UnderBreak` heap links one new block
      from the old break up to the new one, as the new `Tail`; after a miss
      that is what `HmmAllocFixedGrows` asks of the growth. */
  lemma GrowAdds(h: Heap, tn: nat)
    requires UnderBreak(h) && 2 * META <= tn && tn + PAGE - 1 < WORD / 2
    requires FirstAtLeast(h.list, tn).None?
    requires h.arena.brk + GrowBy(tn) <= h.arena.cap
    ensures var b := h.arena.brk + GrowBy(tn);
            && Appended(h, tn, h.arena.brk, b)
            && GrowFixed(h, tn) == Ok(Some(Grown(h, h.arena.brk, b)))
  {
    var b := h.arena.brk + GrowBy(tn);
    assert h.arena.brk + tn <= b < WORD;
    GrowIsGrown(h, tn);
    GrownSeparate(h, h.arena.brk, b);
  }

  /** Granted corrected growth with `Tail` on the last node of a separate
      list is `Grown`. */
  lemma GrowIsGrown(h: Heap, tn: nat)
    requires |h.list| > 0 && Separate(h.list) && TailOk(h) && tn + PAGE - 1 < WORD
    requires h.arena.brk + GrowBy(tn) <= h.arena.cap < WORD / 2
    ensures GrowFixed(h, tn) == Ok(Some(Grown(h, h.arena.brk, h.arena.brk + GrowBy(tn))))
  {
    assert IntPtr(GrowBy(tn)) == GrowBy(tn);
    SeparateDistinct(h.list);
  }

  /** Appending the block from `e` up to `b` keeps a separate list whose
      blocks all end at or below `e` separate, with `Tail` on its last
      node. */
  lemma GrownSeparate(h: Heap, e: nat, b: nat)
    requires Separate(h.list)
    requires forall j :: 0 <= j < |h.list| ==> End(h.list[j]) <= e
    requires e < b < WORD
    ensures Separate(Grown(h, e, b).list) && TailOk(Grown(h, e, b))
  {
    var n := |h.list|;
    var h3 := Grown(h, e, b);
    assert h3.list[n].len > 0 && End(h3.list[n]) < WORD;
    forall i, j | 0 <= i < j < |h3.list|
      ensures End(h3.list[i]) <= h3.list[j].off || End(h3.list[j]) <= h3.list[i].off
    {
      if j < n {
        assert h3.list[i] == h.list[i] && h3.list[j] == h.list[j];
      } else {
        assert h3.list[i] == h.list[i];
      }
    }
  }

  /** Lines 143-147 and 160-165 together, as written. Handing out the
      last node moves `Tail` down to the node before it; the next miss
      then grows from the end of that lower block, and the new free node
      covers the block still in use. `GrowFixed` links only the granted
      pages. */
  lemma TakenTailGrowOverlaps()
    ensures var h := Heap(Cursor(PAGE, 4 * PAGE), [Node(0, 64), Node(1000, 3096)], Some(1000));
            Separate(h.list) && TailOk(h)
    // The whole `Tail` block `[1000, 4096)` is handed out; `Tail` moves to 0.
    ensures var h := Heap(Cursor(PAGE, 4 * PAGE), [Node(0, 64), Node(1000, 3096)], Some(1000));
            HmmAllocFixed(h, 3048) == Ok(Alloc(Heap(h.arena, [Node(0, 64)], Some(0)), Some(1000 + META)))
    // A later miss grows from the end of `Tail`'s block, over `[1000, 4096)`.
    ensures var h1 := Heap(Cursor(PAGE, 4 * PAGE), [Node(0, 64)], Some(0));
            && Grow(h1, TotalNeeded(3048))
               == Ok(Some(Heap(Cursor(2 * PAGE, 4 * PAGE), [Node(0, 64), Node(64, 8128)], Some(64))))
            && Within(Node(1000, 3096), Node(64, 8128))
    ensures var h1 := Heap(Cursor(PAGE, 4 * PAGE), [Node(0, 64)], Some(0));
            GrowFixed(h1, TotalNeeded(3048))
            == Ok(Some(Heap(Cursor(2 * PAGE, 4 * PAGE), [Node(0, 64), Node(PAGE, PAGE)], Some(PAGE))))
  {
    var h := Heap(Cursor(PAGE, 4 * PAGE), [Node(0, 64), Node(1000, 3096)], Some(1000));
    assert Align8(3048) == 3048;
    assert TotalNeeded(3048) == 3072;
    assert FirstAtLeast(h.list, 3072) == Some(1);
    assert FirstFit(h, 3072) == (h, Some(1000 + META));
    assert IndexOf(h.list, 1000) == Some(1);
    var h1 := Heap(h.arena, [Node(0, 64)], Some(0));
    assert h.list[..1] == h1.list;
    assert Unlink(h, 1) == h1;
    assert Take(h, 1000) == Ok(Alloc(h1, Some(1000 + META)));
    assert HmmAllocFixed(h, 3048) == AllocFrom(h, 3072, META) == Search(h, 3072, META);
    assert GrowBy(3072) == PAGE;
    assert IndexOf(h1.list, 0) == Some(0);
    var a := Cursor(2 * PAGE, 4 * PAGE);
    assert IntPtr(GrowBy(3072)) == PAGE;
    assert Sbreak(h1.arena, PAGE) == (Some(PAGE), a);
    assert SizeT(2 * PAGE - 64) == 8128 && SizeT(PAGE) == PAGE;
    assert AddFnode(h1.(arena := a), 0).0 == Heap(a, [Node(0, 64), Node(64, 8128)], Some(64));
    assert h1.list[..1] + [Node(PAGE, PAGE)] + h1.list[1..] == [Node(0, 64), Node(PAGE, PAGE)];
  }

  /** `calloc` with the unchecked product: 2^32 elements of 2^32 bytes ask
      for 0 bytes, the same as `calloc(0, 1)`. */
  lemma CallocProductWraps(h: Heap, back: nat)
    requires back <= META
    ensures Calloc(h, 0x1_0000_0000, 0x1_0000_0000, back) == Calloc(h, 0, 1, back)
  {
    MulIsProduct(0x1_0000_0000, 0x1_0000_0000);
    assert SizeT(Mul(0x1_0000_0000, 0x1_0000_0000)) == 0;
  }

  /** As written, `calloc` inherits the header mix-up: a request that the
      first-fit search satisfies on a list of separate blocks is undefined. */
  lemma CallocHitIsUndefined(h: Heap, num: nat, size: nat)
    requires |h.list| > 0 && Separate(h.list)
    requires SizeT(Mul(num, size)) + 55 < WORD
    requires FirstAtLeast(h.list, TotalNeeded(SizeT(Mul(num, size)))).Some?
    ensures Calloc(h, num, size, 0) == Undefined
  {
    HmmAllocHitIsUndefined(h, SizeT(Mul(num, size)));
  }

  /** So does `realloc` for a new size the search satisfies, whether it
      allocates from NULL or moves a block. */
  lemma ReallocHitIsUndefined(h: Heap, ptr: Option<nat>, size: nat, oldLen: nat)
    requires oldLen < WORD && 0 < size
    requires |h.list| > 0 && Separate(h.list)
    requires size + 55 < WORD
    requires FirstAtLeast(h.list, TotalNeeded(size)).Some?
    ensures Realloc(h, ptr, size, oldLen, 0) == Undefined
  {
    HmmAllocHitIsUndefined(h, size);
  }

  /** With the corrected allocator, `calloc` on a first-fit hit returns the
      payload of the block found, zeroes `num * size` bytes taken modulo
      2^64 (exactly `num * size` when the product does not wrap), and the
      block's payload holds every byte zeroed. */
  lemma CallocFixedHit(h: Heap, num: nat, size: nat)
    requires |h.list| > 0 && Separate(h.list) && TailOk(h)
    requires SizeT(Mul(num, size)) + 55 < WORD
    requires FirstAtLeast(h.list, TotalNeeded(SizeT(Mul(num, size)))).Some?
    ensures var k := FirstAtLeast(h.list, TotalNeeded(SizeT(Mul(num, size)))).value;
            var r := Calloc(h, num, size, META);
            r.Ok? && r.value.ptr == Some(h.list[k].off + META)
    ensures var n := TotalNeeded(SizeT(Mul(num, size)));
            var k := FirstAtLeast(h.list, n).value;
            Split(h, k, n).list[k].len - META >= SizeT(Mul(num, size))
    ensures var r := Calloc(h, num, size, META);
            && r.Ok? && r.value.zeroed == SizeT(Mul(num, size))
            && (Mul(num, size) < WORD ==> r.value.zeroed == Mul(num, size))
  {
    var n := TotalNeeded(SizeT(Mul(num, size)));
    var k := FirstAtLeast(h.list, n).value;
    FixedHitHolds(h, SizeT(Mul(num, size)));
    CallocAfter(h, num, size, META, h.list[k].off + META);
  }

  /** `calloc` after an allocation that returned `p`: it returns `p` and
      zeroes `num * size` bytes modulo 2^64. */
  lemma CallocAfter(h: Heap, num: nat, size: nat, back: nat, p: nat)
    requires back <= META
    requires var a := AllocWith(h, TotalNeeded(SizeT(Mul(num, size))), back);
             a.Ok? && a.value.ptr == Some(p)
    ensures var r := Calloc(h, num, size, back);
            && r.Ok? && r.value.ptr == Some(p)
            && r.value.zeroed == SizeT(Mul(num, size))
            && (Mul(num, size) < WORD ==> r.value.zeroed == Mul(num, size))
  {
  }

  /** The part of `HmmAllocFixedHit` that `calloc` needs: the payload
      address and that the block's payload holds the request. */
  lemma FixedHitHolds(h: Heap, size: nat)
    requires |h.list| > 0 && Separate(h.list) && TailOk(h)
    requires size + 55 < WORD
    requires FirstAtLeast(h.list, TotalNeeded(size)).Some?
    ensures var n := TotalNeeded(size);
            var k := FirstAtLeast(h.list, n).value;
            var a := AllocWith(h, n, META);
            && a.Ok? && a.value.ptr == Some(h.list[k].off + META)
            && Split(h, k, n).list[k].len - META >= size
  {
    HmmAllocFixedHit(h, size);
  }

  /** Whatever the allocator, a successful `realloc` that frees the old
      block leaves its header at the head of the free list, and a move
      copies `min(oldSize, size)` bytes. */
  lemma ReallocFreesOld(h: Heap, ptr: Option<nat>, size: nat, oldLen: nat, back: nat)
    requires oldLen < WORD && back <= META
    ensures var r := Realloc(h, ptr, size, oldLen, back);
            ptr.Some? && r.Ok? && (size == 0 || r.value.ptr.Some?) ==>
              && ptr.value >= META
              && |r.value.heap.list| > 0 && r.value.heap.list[0].off == ptr.value - META
              && r.value.copied == (if size == 0 then 0 else if oldLen < size then oldLen else size)
  {
  }

  /** A move whose allocation returns NULL because `sbrk` refused to grow
      the heap leaves the heap as it was: the old block is not freed. */
  lemma ReallocFixedRefused(h: Heap, ptr: Option<nat>, size: nat, oldLen: nat)
    requires oldLen < WORD && 0 < size && |h.list| > 0
    requires FirstFit(h, TotalNeeded(size)).1.None?
    requires !(0 <= h.arena.brk + IntPtr(GrowBy(TotalNeeded(size))) <= h.arena.cap)
    ensures Realloc(h, ptr, size, oldLen, META) == Ok(Resized(h, None, 0))
  {
    HmmAllocFixedRefused(h, size);
  }
}
