/**
 The arena manager: a program break that moves inside a fixed region
 `[heapBase, heapBase + cap]`. Offsets are measured from `heapBase`, so the
 break is a `nat` and a valid cursor has `brk <= cap`.

 HMM1/heap.c implements this over a static array of `VHEAP_MAX_SIZE` bytes.
 HMM2/heap.c calls the operating system's `sbrk` instead; there it is
 modelled by the same cursor with an unknown capacity `cap`.
 */
module Arena {
  import opened FreeList

  datatype Cursor = Cursor(brk: nat, cap: nat)
  {
    predicate Valid() { brk <= cap }
  }

  /** `sbreak(increment)`: `Some(old break)` and the moved cursor, or
      `None` (the C's `(void *)-1`) and the unchanged cursor when the new
      break would leave `[heapBase, heapBase + cap]`. */
  function Sbreak(c: Cursor, increment: int): (r: (Option<nat>, Cursor))
    ensures r.0.Some? <==> 0 <= c.brk + increment <= c.cap
    ensures r.0.Some? ==> r.0.value == c.brk && r.1 == Cursor(c.brk + increment, c.cap)
    ensures r.0.None? ==> r.1 == c
    ensures c.Valid() ==> r.1.Valid()
  {
    var newBreak := c.brk + increment;
    if newBreak > c.cap || newBreak < 0 then (None, c)
    else (Some(c.brk), Cursor(newBreak, c.cap))
  }

  /** `sbreak(0)` is a query: it reports the break and moves nothing. */
  lemma SbreakZeroIsQuery(c: Cursor)
    requires c.Valid()
    ensures Sbreak(c, 0) == (Some(c.brk), c)
  {
  }

  /** Moving the break forward and then back by the same amount restores it. */
  lemma SbreakRetract(c: Cursor, increment: int)
    requires c.Valid()
    requires Sbreak(c, increment).0.Some?
    ensures Sbreak(Sbreak(c, increment).1, -increment) == (Some(c.brk + increment), c)
  {
  }

  /** Successive successful moves compose: the break only ever moves by the
      sum of the increments, and stays within the region. */
  lemma SbreakCompose(c: Cursor, a: int, b: int)
    requires c.Valid()
    requires Sbreak(c, a).0.Some?
    requires Sbreak(Sbreak(c, a).1, b).0.Some?
    ensures Sbreak(c, a + b).0.Some?
    ensures Sbreak(Sbreak(c, a).1, b).1 == Sbreak(c, a + b).1
  {
  }
}
