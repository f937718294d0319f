/**
 * The pool allocator of lib/hu/palloc.c on a 32-bit target, as functions over
 * a snapshot of its global state.
 *
 * Memory is modelled by its block headers: `heap` maps the address of every
 * header the allocator has written to the header's two words, `next` and
 * `flagNsize`. Headers that a merge made part of a larger block stay in `heap`
 * as they were, as they stay in memory. The anchor `_anchor` lies outside
 * every arena; only its `next` word is kept, since its size word is always 0.
 *
 * Two abstract fields name what the C code keeps implicit: `blocks` holds the
 * header address of every block of every arena, sentinels included, and `free`
 * the nodes of the free list in list order. `Valid` relates them to the
 * headers.
 */
module PallocSpec {

  /** sizeof(size_t). */
  const W: nat := 4
  /** `_sizeof_link_t`: a header (a pointer and a size_t) rounded up to W. */
  const H: nat := 8
  /** `PALLOC_ALLOCATED`, the top bit of a size_t. */
  const FLAG: nat := 0x8000_0000
  /** Every size_t value is below WORD. */
  const WORD: nat := 0x1_0000_0000
  const NULL: nat := 0

  /** `ALIGNED_VALUE(a)` in size_t arithmetic. */
  function Aligned(a: nat): (r: nat)
    requires a < WORD
    ensures r < WORD && r % W == 0
    ensures a <= WORD - W ==> a <= r < a + W
  {
    var x := (a + W - 1) % WORD;
    RoundDown(x);
    x / W * W
  }

  /** Clearing the low bits of x rounds it down to a multiple of W. */
  lemma RoundDown(x: nat)
    ensures x / W * W % W == 0 && x - W < x / W * W <= x
  {
    var q := x / W;
    assert x == q * W + x % W;
    assert q * W % W == 0;
  }

  /** size_t addition. */
  function Add(x: nat, y: nat): (r: nat)
    ensures r < WORD
    ensures x + y < WORD ==> r == x + y
  {
    (x + y) % WORD
  }

  /** size_t subtraction, which wraps below zero. */
  function Sub(x: nat, y: nat): (r: nat)
    ensures r < WORD
    ensures y <= x < WORD + y ==> r == x - y
    ensures x < y <= WORD + x ==> r == WORD + x - y
  {
    (x - y) % WORD
  }

  /** size_t multiplication. */
  function Mul(x: nat, y: nat): (r: nat)
    ensures r < WORD
    ensures x * y < WORD ==> r == x * y
  {
    (x * y) % WORD
  }

  /** `start + block_size - _sizeof_link_t` in size_t arithmetic: where
      palloc_init writes an arena's end sentinel. */
  function Sentinel(start: nat, size: nat): (e: nat)
    ensures e < WORD
    ensures H <= start + size < WORD ==> e == start + size - H
    ensures H < size < WORD ==> e != start
  {
    Sub(Add(start, size), H)
  }

  /** `ALIGNED_VALUE(n + _sizeof_link_t)` does not wrap. */
  predicate Representable(n: nat) {
    n + H + W - 1 < WORD
  }

  /** A `link_t`. */
  datatype Link = Link(next: nat, flagNsize: nat)

  /** `(flagNsize & PALLOC_ALLOCATED) != 0`, for a size_t word. */
  predicate Allocated(l: Link) {
    l.flagNsize >= FLAG
  }

  /** `flagNsize & ~PALLOC_ALLOCATED`, for a size_t word: the size of the
      block, header included. */
  function Size(l: Link): nat {
    if l.flagNsize >= FLAG then l.flagNsize - FLAG else l.flagNsize
  }

  /** `flagNsize | PALLOC_ALLOCATED`, for a size_t word. */
  function Flagged(x: nat): nat {
    if x >= FLAG then x else x + FLAG
  }

  /** The bytes a block occupies: a sentinel has size 0 but still holds its
      header. */
  function Extent(l: Link): nat {
    if Size(l) == 0 then H else Size(l)
  }

  /** A `link_t *`: NULL, `&_anchor`, or the header at an address. */
  datatype Ref = Null | Anchor | At(addr: nat)

  /** The globals of palloc.c, and the two abstract fields. */
  datatype PoolState = PoolState(
    heap: map<nat, Link>,
    anchor: nat,     // _anchor.next
    last: nat,       // _ppool_last
    freeSize: nat,   // _free_size
    poolSize: nat,   // _pool_size
    numAlloc: nat,   // _num_alloc
    numFree: nat,    // _num_free
    blocks: set<nat>,
    free: seq<nat>)

  /** The static initialisers: no arena. */
  function Empty(): PoolState {
    PoolState(map[], NULL, NULL, 0, 0, 0, 0, {}, [])
  }

  // ----- the free list as a sequence -----

  function Head(xs: seq<nat>): nat {
    if xs == [] then NULL else xs[0]
  }

  /** The `next` the node at position i should hold. */
  function Succ(xs: seq<nat>, i: nat): nat
    requires i < |xs|
  {
    if i + 1 < |xs| then xs[i + 1] else NULL
  }

  /** The link whose `next` points at position i: the anchor or the node before. */
  function PrevRef(xs: seq<nat>, i: nat): Ref
    requires i <= |xs|
  {
    if i == 0 then Anchor else At(xs[i - 1])
  }

  predicate Increasing(xs: seq<nat>) {
    forall i, j :: 0 <= i < j < |xs| ==> xs[i] < xs[j]
  }

  function Remove(xs: seq<nat>, i: nat): (r: seq<nat>)
    requires i < |xs|
    ensures |r| == |xs| - 1
    ensures forall t :: 0 <= t < i ==> r[t] == xs[t]
    ensures forall t :: i <= t < |r| ==> r[t] == xs[t + 1]
  {
    xs[..i] + xs[i + 1..]
  }

  function Insert(xs: seq<nat>, i: nat, x: nat): (r: seq<nat>)
    requires i <= |xs|
    ensures |r| == |xs| + 1 && r[i] == x
    ensures forall t :: 0 <= t < i ==> r[t] == xs[t]
    ensures forall t :: i < t < |r| ==> r[t] == xs[t - 1]
  {
    xs[..i] + [x] + xs[i..]
  }

  // ----- reading and writing links -----

  /** `r->next`. */
  function NextOf(s: PoolState, r: Ref): nat
    requires r.At? ==> r.addr in s.heap
  {
    match r
    case Null => NULL
    case Anchor => s.anchor
    case At(a) => s.heap[a].next
  }

  /** `r->next = x`; nothing for a NULL `r`. */
  function SetNext(s: PoolState, r: Ref, x: nat): PoolState
    requires r.At? ==> r.addr in s.heap
  {
    match r
    case Null => s
    case Anchor => s.(anchor := x)
    case At(a) => s.(heap := s.heap[a := s.heap[a].(next := x)])
  }

  /** `_set_link`. */
  function SetLink(s: PoolState, a: nat, size: nat, next: nat): PoolState {
    s.(heap := s.heap[a := Link(next, size)])
  }

  /** `_set_block`: a block at `start` of `size` bytes, the sentinel at `end`,
      and `r` linked to the block. */
  function SetBlock(s: PoolState, start: nat, end: nat, size: nat, next: nat, r: Ref): PoolState
    requires r.At? ==> r.addr in s.heap || r.addr in {start, end}
  {
    SetNext(SetLink(SetLink(s, start, size, end), end, 0, next), r, start)
  }

  // ----- the invariant -----

  /** Every block has a header. */
  ghost predicate Headed(s: PoolState) {
    forall b :: b in s.blocks ==> b in s.heap
  }

  /** Header words are size_t values; a header with the flag is a live block
      of positive size whose `next` is NULL. */
  ghost predicate Words(s: PoolState) {
    && (forall a :: a in s.heap ==> s.heap[a].flagNsize < WORD)
    && (forall a :: a in s.heap && Allocated(s.heap[a]) ==>
          a in s.blocks && s.heap[a].next == NULL && Size(s.heap[a]) > 0)
  }

  /** The blocks lie in the lower half of the address space without
      overlapping, and each block of positive size is followed directly by
      another block. */
  ghost predicate Tiled(s: PoolState)
    requires Headed(s)
  {
    && (forall b :: b in s.blocks ==> 0 < b && b + Extent(s.heap[b]) <= FLAG)
    && (forall b, c :: b in s.blocks && c in s.blocks && b < c ==> b + Extent(s.heap[b]) <= c)
    && (forall b :: b in s.blocks && Size(s.heap[b]) > 0 ==> b + Size(s.heap[b]) in s.blocks)
  }

  /** The free list is in address order, holds blocks without the flag, and
      holds every such block of positive size. */
  ghost predicate Listed(s: PoolState)
    requires Headed(s)
  {
    && Increasing(s.free)
    && (forall i :: 0 <= i < |s.free| ==> s.free[i] in s.blocks && !Allocated(s.heap[s.free[i]]))
    && (forall b :: b in s.blocks && !Allocated(s.heap[b]) && Size(s.heap[b]) > 0 ==> b in s.free)
  }

  /** The anchor and the `next` words chain the free list. */
  ghost predicate Linked(s: PoolState)
    requires forall i :: 0 <= i < |s.free| ==> s.free[i] in s.heap
  {
    && s.anchor == Head(s.free)
    && forall i :: 0 <= i < |s.free| ==> s.heap[s.free[i]].next == Succ(s.free, i)
  }

  /** `_ppool_last` is the final node: the highest block, a sentinel. */
  ghost predicate Ended(s: PoolState)
    requires Headed(s)
  {
    if s.free == [] then s.blocks == {} && s.last == NULL
    else
      && s.free[|s.free| - 1] == s.last
      && s.last in s.blocks
      && Size(s.heap[s.last]) == 0
      && forall b :: b in s.blocks ==> b <= s.last
  }

  /** The total of the sizes of the nodes xs. */
  function SumSizes(heap: map<nat, Link>, xs: seq<nat>): nat
    requires forall i :: 0 <= i < |xs| ==> xs[i] in heap
  {
    if xs == [] then 0 else Size(heap[xs[0]]) + SumSizes(heap, xs[1..])
  }

  ghost predicate Valid(s: PoolState) {
    && Headed(s)
    && Words(s)
    && Tiled(s)
    && Listed(s)
    && Linked(s)
    && Ended(s)
    && s.freeSize == SumSizes(s.heap, s.free)
  }

  /** The header at `c`, if there is one, is not a free block of positive
      size. */
  ghost predicate Closed(h: map<nat, Link>, c: nat) {
    c in h ==> Allocated(h[c]) || Size(h[c]) == 0
  }

  /** The header at `b`, when it is a free block of positive size, is
      followed by a closed header. */
  ghost predicate Followed(h: map<nat, Link>, b: nat) {
    b in h && !Allocated(h[b]) && Size(h[b]) > 0 ==> Closed(h, b + Size(h[b]))
  }

  /** No two free blocks of positive size are neighbours. */
  ghost predicate Coalesced(s: PoolState) {
    forall b {:trigger Followed(s.heap, b)} :: b in s.blocks ==> Followed(s.heap, b)
  }

  /** A pointer palloc returned and pfree has not taken back. */
  ghost predicate Live(s: PoolState, p: nat) {
    p >= H && p - H in s.blocks && p - H in s.heap && Allocated(s.heap[p - H])
  }

  // ----- palloc -----

  /** The free list as the C code sees it: nodes with headers, chained from
      the anchor, ending at `_ppool_last`. */
  ghost predicate Chained(s: PoolState) {
    && (forall i :: 0 <= i < |s.free| ==> s.free[i] in s.heap && s.free[i] != NULL)
    && Linked(s)
    && (s.free != [] ==> s.free[|s.free| - 1] == s.last)
  }

  lemma ValidChained(s: PoolState)
    requires Valid(s)
    ensures Chained(s)
  {
    forall i | 0 <= i < |s.free| ensures s.free[i] in s.heap && s.free[i] != NULL {
      assert s.free[i] in s.blocks;
    }
  }

  /** The node the walk of palloc stops at, starting from position i: the
      first whose size word reaches `size`, or the final one. */
  function FitIndex(s: PoolState, size: nat, i: nat): (j: nat)
    requires Chained(s) && i < |s.free|
    ensures i <= j < |s.free|
    ensures forall t :: i <= t < j ==> s.heap[s.free[t]].flagNsize < size
    ensures s.heap[s.free[j]].flagNsize >= size || j == |s.free| - 1
    decreases |s.free| - i
  {
    var l := s.heap[s.free[i]];
    if l.flagNsize < size && l.next != NULL then FitIndex(s, size, i + 1) else i
  }

  /** The node at position i and the one before it have headers. */
  ghost predicate AtNode(s: PoolState, i: nat) {
    i < |s.free| && s.free[i] in s.heap && (i > 0 ==> s.free[i - 1] in s.heap)
  }

  /** Lines 60-76: hand out the node at position i for a block of `size`
      bytes, splitting off the rest when more than two headers remain. */
  function Take(s: PoolState, i: nat, size: nat): PoolState
    requires AtNode(s, i) && i < |s.free| - 1
  {
    var a := s.free[i];
    var l := s.heap[a];
    var prev := PrevRef(s.free, i);
    var s1 := SetNext(s, prev, l.next);
    var split := Sub(l.flagNsize, size) > 2 * H;
    var s2 := if split then
                var s3 := SetLink(s1, a + size, Sub(l.flagNsize, size), NextOf(s1, prev));
                SetNext(s3.(heap := s3.heap[a := s3.heap[a].(flagNsize := size)]), prev, a + size)
              else s1;
    var taken := s2.heap[a].flagNsize;
    s2.(heap := s2.heap[a := Link(NULL, Flagged(taken))],
        freeSize := Sub(s2.freeSize, taken),
        numAlloc := Add(s2.numAlloc, 1),
        blocks := if split then s.blocks + {a + size} else s.blocks,
        free := if split then s.free[i := a + size] else Remove(s.free, i))
  }

  /** The size palloc(n) looks for. */
  function Rounded(n: nat): nat
    requires n < WORD
  {
    Aligned(Add(n, H))
  }

  /** `palloc(n)`: the new state and the pointer returned. */
  function Alloc(s: PoolState, n: nat): (PoolState, nat)
    requires Chained(s) && n < WORD
  {
    if s.anchor == NULL || n == 0 then (s, NULL)
    else
      var size := Rounded(n);
      if size >= FLAG then (s, NULL)
      else if size > s.freeSize then (s, NULL)
      else
        var i := FitIndex(s, size, 0);
        if s.free[i] == s.last then (s, NULL)
        else (Take(s, i, size), s.free[i] + H)
  }

  // ----- pfree -----

  /** What `_insert_link` needs to walk to `a`: the free list lies in the
      heap and ends above `a`. */
  ghost predicate InsertReady(s: PoolState, a: nat) {
    && a in s.heap
    && (forall i :: 0 <= i < |s.free| ==> s.free[i] in s.heap)
    && |s.free| > 0 && a < s.free[|s.free| - 1]
  }

  /** The position the walk of `_insert_link` stops at, starting from j:
      `itor` is the link before it and `itor->next` the node at it. */
  function InsertIndex(s: PoolState, a: nat, j: nat): (k: nat)
    requires InsertReady(s, a) && j < |s.free|
    ensures j <= k < |s.free| && s.free[k] >= a
    ensures forall t :: j <= t < k ==> s.free[t] < a
    decreases |s.free| - j
  {
    if s.free[j] < a then InsertIndex(s, a, j + 1) else j
  }

  /** `_insert_link(a)`: put the block at `a` back in address order, merged
      with a neighbour that ends at `a` and with one that starts where it
      ends, except the final sentinel. */
  function InsertLink(s: PoolState, a: nat): PoolState
    requires InsertReady(s, a)
  {
    var j := InsertIndex(s, a, 0);
    var itor := PrevRef(s.free, j);
    var nx := s.free[j];
    // lines 252-256; the anchor's size word is 0 and it is not in an arena
    var back := itor.At? && itor.addr + s.heap[itor.addr].flagNsize == a;
    var s1 := if back then
                s.(heap := s.heap[itor.addr := s.heap[itor.addr].(flagNsize :=
                     Add(s.heap[itor.addr].flagNsize, s.heap[a].flagNsize))])
              else s;
    var p := if back then itor.addr else a;
    // lines 257-267
    var forth := p + s1.heap[p].flagNsize == nx;
    var absorbed := forth && nx != s.last;
    var s2 := if absorbed then SetLink(s1, p, Add(s1.heap[p].flagNsize, s1.heap[nx].flagNsize), s1.heap[nx].next)
              else if forth then SetNext(s1, At(p), s.last)
              else SetNext(s1, At(p), nx);
    // lines 269-270
    var s3 := if back then s2 else SetNext(s2, itor, a);
    s3.(blocks := s.blocks - (if back then {a} else {}) - (if absorbed && Size(s.heap[nx]) > 0 then {nx} else {}),
        free := if back then (if absorbed then Remove(s.free, j) else s.free)
                else if absorbed then s.free[j := a] else Insert(s.free, j, a))
  }

  /** The parts of Valid that pfree relies on: a flagged header is a live
      block, and the free list ends with the final sentinel above it. */
  ghost predicate Freeing(s: PoolState) {
    Headed(s) && Words(s) && Listed(s) && Ended(s)
  }

  /** `pfree(p)`. */
  function Free(s: PoolState, p: nat): PoolState
    requires Freeing(s) && (p == NULL || (p >= H && p - H in s.heap))
  {
    if p == NULL then s
    else
      var a := p - H;
      var l := s.heap[a];
      if !Allocated(l) then s
      else if l.next != NULL then s
      else
        ReadyToInsert(s, a);
        Release(s, a)
  }

  /** Lines 94-97: the block at `a` counted free, put back on the list, and
      the call counted. */
  function Release(s: PoolState, a: nat): PoolState
    requires a in s.heap && InsertReady(Cleared(s, a), a)
  {
    var s2 := InsertLink(Cleared(s, a), a);
    s2.(numFree := Add(s2.numFree, 1))
  }

  /** Lines 94-95: the flag of the block at `a` cleared and its size counted
      free. */
  function Cleared(s: PoolState, a: nat): PoolState
    requires a in s.heap
  {
    var l := s.heap[a];
    s.(heap := s.heap[a := l.(flagNsize := Size(l))], freeSize := Add(s.freeSize, Size(l)))
  }

  /** A live block lies below the final sentinel, so the walk of
      `_insert_link` ends on a node. */
  lemma ReadyToInsert(s: PoolState, a: nat)
    requires Freeing(s) && a in s.heap && Allocated(s.heap[a])
    ensures InsertReady(Cleared(s, a), a)
  {
    assert a in s.blocks;
    assert s.free != [];
    assert a != s.last;
  }

  // ----- palloc_init -----

  /** The position the walk of palloc_init stops at, starting from j: the
      first node at or above `start`, or the end of the list. */
  function InitIndex(s: PoolState, start: nat, j: nat): (k: nat)
    requires j <= |s.free|
    ensures j <= k <= |s.free|
    ensures forall t :: j <= t < k ==> s.free[t] < start
    ensures k < |s.free| ==> s.free[k] >= start
    decreases |s.free| - j
  {
    if j < |s.free| && s.free[j] < start then InitIndex(s, start, j + 1) else j
  }

  /** Lines 225-229 for a new arena of `size` bytes at `start`, whose block
      and sentinel enter the free list at position j. */
  function Grow(s: PoolState, start: nat, size: nat, j: nat): PoolState
    requires start in s.heap && j <= |s.free| && size >= H
  {
    s.(freeSize := Add(s.freeSize, s.heap[start].flagNsize),
       poolSize := Add(s.poolSize, size),
       blocks := s.blocks + {start, Sentinel(start, size)},
       free := s.free[..j] + [start, Sentinel(start, size)] + s.free[j..])
  }

  /** What palloc_init reads: the nodes of the free list and `_ppool_last`
      are headers. */
  ghost predicate Initing(s: PoolState) {
    && (forall i :: 0 <= i < |s.free| ==> s.free[i] in s.heap)
    && (s.last == NULL || s.last in s.heap)
  }

  /** `palloc_init(pstart, pend)`: lines 189-191 align both ends in size_t
      arithmetic; the rest works on the aligned start and the size. */
  function Init(s: PoolState, pstart: nat, pend: nat): PoolState
    requires Initing(s) && pstart < WORD && pend < WORD
  {
    var start := Aligned(pstart);
    InitAt(s, start, Sub(Aligned(pend), start))
  }

  /** Lines 193-230 for the arena of `size` bytes at `start`. */
  function InitAt(s: PoolState, start: nat, size: nat): PoolState
    requires Initing(s)
  {
    if size <= 2 * H then s
    else
      var j := InitIndex(s, start, 0);
      var e := Sentinel(start, size);
      if j == |s.free| then
        var s1 := SetBlock(s.(last := e), start, e, size - H, NULL, if s.last == NULL then Null else At(s.last));
        var s2 := if s1.anchor == NULL then SetNext(s1, Anchor, start) else s1;
        Grow(s2, start, size, j)
      else if s.free[j] > start then
        Grow(SetBlock(s, start, e, size - H, s.free[j], PrevRef(s.free, j)), start, size, j)
      else s
  }
}
