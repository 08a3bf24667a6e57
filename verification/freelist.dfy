/**
 Vocabulary shared by the three allocator variants: a free-list node is a
 record `(off, len)` where `off` is the node's byte offset from the start of
 the heap and `len` is the node's `length`/`size` field. Whether `len` counts
 the node's own header differs per variant, so the span of a node is defined
 in each variant's module, not here.

 The free list itself is a `seq<Node>` in list order: `list[0]` is `Head`,
 and the `prev` link of `list[i]` is `list[i-1]`.
 */
module FreeList {

  datatype Node = Node(off: nat, len: nat)

  datatype Option<+T> = None | Some(value: T)

  /** What running a C routine leads to: a new state, a call to `exit`, or
      `Undefined`. `Undefined` stands for undefined behaviour (a NULL
      dereference, link fields read from memory that is not a free-list
      node) and also for a list made cyclic, which the model does not
      represent. */
  datatype Outcome<+T> = Ok(value: T) | Exited | Undefined

  /** `size_t` is 64 bits wide: arithmetic on it wraps modulo 2^64. */
  const WORD: nat := 0x1_0000_0000_0000_0000

  function SizeT(x: int): (r: nat)
    ensures r < WORD
    ensures 0 <= x < WORD ==> r == x
  {
    x % WORD
  }

  /** Wrapping changes a value by a multiple of 2^64. */
  lemma SizeTWraps(x: int)
    ensures (SizeT(x) - x) % WORD == 0
  {
    var q := x / WORD;
    assert SizeT(x) - x == -q * WORD;
  }

  /** A `size_t` passed where an `intptr_t` is expected: values from 2^63 up
      read as negative. */
  function IntPtr(x: nat): (r: int)
    requires x < WORD
    ensures x < WORD / 2 ==> r == x
    ensures x >= WORD / 2 ==> r < 0
  {
    if x < WORD / 2 then x else x - WORD
  }

  /** `(x + 7) & ~7` on a `size_t`: add seven, wrap, clear the low three bits. */
  function Align8(x: nat): (r: nat)
    ensures r % 8 == 0
    ensures x + 7 < WORD ==> x <= r < x + 8
  {
    SizeT(x + 7) / 8 * 8
  }

  /** The set of offsets of the nodes on a list. */
  function Offsets(xs: seq<Node>): set<nat>
  {
    set n | n in xs :: n.off
  }

  /** Sum of the length fields over a list. */
  function Sum(xs: seq<Node>): nat
  {
    if |xs| == 0 then 0 else Sum(xs[..|xs| - 1]) + xs[|xs| - 1].len
  }

  lemma {:induction false} SumConcat(a: seq<Node>, b: seq<Node>)
    ensures Sum(a + b) == Sum(a) + Sum(b)
    decreases |b|
  {
    if |b| == 0 {
      assert a + b == a;
    } else {
      assert (a + b)[..|a + b| - 1] == a + b[..|b| - 1];
      SumConcat(a, b[..|b| - 1]);
    }
  }

  lemma SumOne(n: Node)
    ensures Sum([n]) == n.len
  {
    assert [n][..0] == [];
  }

  lemma SumTwo(m: Node, n: Node)
    ensures Sum([m, n]) == m.len + n.len
  {
    assert [m, n][..1] == [m];
    SumOne(m);
  }

  /** A list is the part before index `k`, node `k`, and the part after. */
  lemma Around(xs: seq<Node>, k: nat)
    requires k < |xs|
    ensures xs[..k] + [xs[k]] + xs[k + 1..] == xs
  {
    assert xs[k..] == [xs[k]] + xs[k + 1..];
    assert xs == xs[..k] + xs[k..];
  }

  /** The sum over `a + mid + b` splits into its three parts. */
  lemma SumSplice(a: seq<Node>, mid: seq<Node>, b: seq<Node>)
    ensures Sum(a + mid + b) == Sum(a) + Sum(mid) + Sum(b)
  {
    SumConcat(a + mid, b);
    SumConcat(a, mid);
  }

  /** The sum around two neighbouring nodes. */
  lemma SumAroundPair(xs: seq<Node>, i: nat)
    requires i + 1 < |xs|
    ensures Sum(xs) == Sum(xs[..i]) + xs[i].len + xs[i + 1].len + Sum(xs[i + 2..])
  {
    var a, b := xs[..i], xs[i + 2..];
    var p := [xs[i], xs[i + 1]];
    assert xs == a + p + b;
    SumSplice(a, p, b);
    SumTwo(xs[i], xs[i + 1]);
  }

  /** Index of the first node (in list order) whose length is at least `need`:
      the loop `for (curr = Head; curr; curr = curr->next) if (curr->length >= need) ...`
      shared by the three variants. */
  function FirstAtLeast(xs: seq<Node>, need: nat): (r: Option<nat>)
    ensures r.Some? ==> r.value < |xs| && xs[r.value].len >= need
    ensures r.Some? ==> forall j :: 0 <= j < r.value ==> xs[j].len < need
    ensures r.None? <==> forall j :: 0 <= j < |xs| ==> xs[j].len < need
  {
    FirstAtLeastFrom(xs, need, 0)
  }

  function FirstAtLeastFrom(xs: seq<Node>, need: nat, k: nat): (r: Option<nat>)
    requires k <= |xs|
    ensures r.Some? ==> k <= r.value < |xs| && xs[r.value].len >= need
    ensures r.Some? ==> forall j :: k <= j < r.value ==> xs[j].len < need
    ensures r.None? <==> forall j :: k <= j < |xs| ==> xs[j].len < need
    decreases |xs| - k
  {
    if k == |xs| then None
    else if xs[k].len >= need then Some(k)
    else FirstAtLeastFrom(xs, need, k + 1)
  }

  /** Index of the first node at offset `p`: which free-list node a pointer names. */
  function IndexOf(xs: seq<Node>, p: nat): (r: Option<nat>)
    ensures r.Some? ==> r.value < |xs| && xs[r.value].off == p
    ensures r.Some? ==> forall j :: 0 <= j < r.value ==> xs[j].off != p
    ensures r.None? <==> p !in Offsets(xs)
  {
    IndexOfFrom(xs, p, 0)
  }

  function IndexOfFrom(xs: seq<Node>, p: nat, k: nat): (r: Option<nat>)
    requires k <= |xs|
    ensures r.Some? ==> k <= r.value < |xs| && xs[r.value].off == p
    ensures r.Some? ==> forall j :: k <= j < r.value ==> xs[j].off != p
    ensures r.None? <==> forall j :: k <= j < |xs| ==> xs[j].off != p
    decreases |xs| - k
  {
    if k == |xs| then None
    else if xs[k].off == p then Some(k)
    else IndexOfFrom(xs, p, k + 1)
  }

  /** No two nodes on the list sit at the same address: an acyclic C list. */
  predicate Distinct(xs: seq<Node>)
  {
    forall i, j :: 0 <= i < j < |xs| ==> xs[i].off != xs[j].off
  }
}
