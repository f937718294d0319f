/**
 * pcalloc, prealloc and palloc_stats of lib/hu/palloc.c, built on the
 * models of palloc and pfree.
 */
module PallocOps {
  import opened PallocSpec
  import opened PallocLists
  import opened PallocAlloc
  import opened PallocFree

  // ----- pcalloc -----

  /** `pcalloc(num, size)`: palloc of the size_t product, or NULL when the
      product is 0. The bytes the block holds are not modelled, so the
      `memset` leaves no trace. */
  function Calloc(s: PoolState, num: nat, size: nat): (PoolState, nat)
    requires Chained(s) && num < WORD && size < WORD
  {
    var n := Mul(num, size);
    if n > 0 then Alloc(s, n) else (s, NULL)
  }

  /** pcalloc keeps the pool valid when palloc of the product does. */
  lemma CallocValid(s: PoolState, num: nat, size: nat)
    requires Valid(s) && num < WORD && size < WORD && Representable(Mul(num, size))
    ensures Chained(s) && Valid(Calloc(s, num, size).0)
  {
    ValidChained(s);
    if Mul(num, size) > 0 {
      AllocValid(s, Mul(num, size));
    }
  }

  /** When the product fits a size_t, a block pcalloc hands out is live and
      holds the `num * size` bytes asked for after its header; a NULL result
      changes nothing. */
  lemma CallocBlock(s: PoolState, num: nat, size: nat)
    requires Valid(s) && num < WORD && size < WORD && num * size < WORD && Representable(num * size)
    ensures Chained(s)
    ensures var (t, p) := Calloc(s, num, size);
            && (p == NULL ==> t == s)
            && (p != NULL ==> num * size > 0 && p >= H && p - H in t.heap && Live(t, p)
                              && Size(t.heap[p - H]) >= num * size + H)
  {
    ValidChained(s);
    var n := Mul(num, size);
    assert n == num * size;
    if n > 0 {
      var (t, p) := Alloc(s, n);
      AllocNull(s, n);
      if p != NULL {
        AllocBlock(s, n, t, p);
      }
    }
  }

  /** Line 106 multiplies without an overflow check: pcalloc(0x10000,
      0x10001) asks for more than 4 GiB, yet is palloc(0x10000). */
  lemma CallocWraps(s: PoolState)
    requires Chained(s)
    ensures 0x10000 * 0x10001 >= WORD
    ensures Calloc(s, 0x10000, 0x10001) == Alloc(s, 0x10000)
  {
  }

  /** A product that wraps to 0 makes pcalloc return NULL. */
  lemma CallocWrapsToZero(s: PoolState)
    requires Chained(s)
    ensures 0x10000 * 0x10000 == WORD
    ensures Calloc(s, 0x10000, 0x10000) == (s, NULL)
  {
  }

  // ----- prealloc -----

  /** What prealloc needs: a valid pool, a request palloc can round, and a
      pointer that is NULL or live. */
  ghost predicate ReallocReady(s: PoolState, ap: nat, n: nat) {
    Valid(s) && Representable(n) && (ap == NULL || Live(s, ap))
  }

  /** `prealloc(ap, n)`. For a live block the guard of line 130 is false
      (ReallocGuardDead), so the in-place growth of lines 131-142 is not part
      of the function: the block either stays or moves. */
  function Realloc(s: PoolState, ap: nat, n: nat): (PoolState, nat)
    requires ReallocReady(s, ap, n)
  {
    ValidChained(s);
    if ap == NULL then Alloc(s, n)
    else if Size(s.heap[ap - H]) >= n then (s, ap)
    else
      var r := Alloc(s, n);
      StillLive(s, ap, n);
      Move(r.0, ap, r.1)
  }

  /** Lines 146-150: after palloc returned p, free the old block unless p
      is NULL. */
  function Move(t: PoolState, ap: nat, p: nat): (PoolState, nat)
    requires Freeing(t) && ap >= H && ap - H in t.heap
  {
    if p == NULL then (t, NULL) else (Free(t, ap), p)
  }

  /** palloc leaves a valid pool in which the old block is still live. */
  lemma StillLive(s: PoolState, ap: nat, n: nat)
    requires ReallocReady(s, ap, n) && ap != NULL
    ensures Chained(s) && Valid(Alloc(s, n).0) && Live(Alloc(s, n).0, ap)
  {
    ValidChained(s);
    AllocValid(s, n);
    var r := Alloc(s, n);
    AllocKeepsLive(s, n, r.0, r.1);
  }

  /** A live block's `next` word is NULL, so line 130 never takes the
      in-place branch. */
  lemma ReallocGuardDead(s: PoolState, ap: nat)
    requires Valid(s) && Live(s, ap)
    ensures s.heap[ap - H].next == NULL
  {
  }

  /** prealloc keeps the pool valid. */
  lemma ReallocValid(s: PoolState, ap: nat, n: nat)
    requires ReallocReady(s, ap, n)
    ensures Valid(Realloc(s, ap, n).0)
  {
    ValidChained(s);
    AllocValid(s, n);
    if ap != NULL && Size(s.heap[ap - H]) < n {
      StillLive(s, ap, n);
      var r := Alloc(s, n);
      if r.1 != NULL {
        FreeValid(r.0, ap);
      }
    }
  }

  /** Lines 127-128 compare the block's size, header included, with the
      payload asked for: a request up to H bytes beyond what the block holds
      returns the block unchanged. */
  lemma ReallocKeepsShort(s: PoolState, ap: nat, n: nat)
    requires ReallocReady(s, ap, n) && ap != NULL
    requires Size(s.heap[ap - H]) - H < n <= Size(s.heap[ap - H])
    ensures Realloc(s, ap, n) == (s, ap)
    ensures Size(s.heap[ap - H]) - H < n
  {
  }

  /** The outcome of a prealloc that moves the block at `ap`: NULL and no
      change, or a new live block at `p` that holds n bytes, with the old
      one freed and every other live block still live. */
  ghost predicate MovedTo(s: PoolState, t: PoolState, ap: nat, p: nat, n: nat) {
    && (p == NULL ==> t == s)
    && (p != NULL ==> p != ap && Live(t, p) && !Live(t, ap) && Size(t.heap[p - H]) >= n + H
                      && forall q: nat :: Live(s, q) && q != ap ==> Live(t, q))
  }

  /** When the block at `ap` is smaller than n, header included, prealloc
      moves it as MovedTo says; the copy of n bytes at line 149 then reads
      past the end of the old block. */
  lemma ReallocMoves(s: PoolState, ap: nat, n: nat)
    requires ReallocReady(s, ap, n) && ap != NULL && Size(s.heap[ap - H]) < n
    ensures var (t, p) := Realloc(s, ap, n);
            MovedTo(s, t, ap, p, n)
  {
    ValidChained(s);
    AllocNull(s, n);
    StillLive(s, ap, n);
    var (t1, p) := Alloc(s, n);
    assert Realloc(s, ap, n) == Move(t1, ap, p);
    if p != NULL {
      MovedSome(s, ap, n, t1, p);
    }
  }

  /** The moving prealloc when palloc succeeds. */
  lemma MovedSome(s: PoolState, ap: nat, n: nat, t1: PoolState, p: nat)
    requires ReallocReady(s, ap, n) && ap != NULL && Chained(s) && (t1, p) == Alloc(s, n) && p != NULL
    ensures Valid(t1) && Live(t1, ap) && MovedTo(s, Free(t1, ap), ap, p, n)
  {
    AllocValid(s, n);
    AllocBlock(s, n, t1, p);
    AllocKeepsLive(s, n, t1, p);
    Moved(t1, ap, p);
    var t := Free(t1, ap);
    assert Size(t.heap[p - H]) >= n + H by {
      assert t.heap[p - H] == t1.heap[p - H];
    }
    forall q: nat | Live(s, q) && q != ap ensures Live(t, q) {
      assert Live(t1, q);
    }
  }

  /** pfree of the old block in a pool where the new one is live. */
  lemma Moved(t1: PoolState, ap: nat, p: nat)
    requires Valid(t1) && Live(t1, ap) && Live(t1, p) && p != ap
    ensures var t := Free(t1, ap);
            && Live(t, p) && t.heap[p - H] == t1.heap[p - H] && !Live(t, ap)
            && forall q: nat :: Live(t1, q) && q != ap ==> Live(t, q)
  {
    FreeLive(t1, ap - H);
  }

  /** prealloc(NULL, n) is palloc(n). */
  lemma ReallocNull(s: PoolState, n: nat)
    requires ReallocReady(s, NULL, n)
    ensures Chained(s) && Realloc(s, NULL, n) == Alloc(s, n)
  {
    ValidChained(s);
  }

  // ----- palloc_stats -----

  /** The results of `palloc_stats`: its return value and the three words it
      stores through its pointers. */
  datatype Stats = Stats(free: nat, largest: nat, smallest: nat, links: nat)

  /** The largest size word among the nodes xs, 0 for none. */
  function Largest(h: map<nat, Link>, xs: seq<nat>): (m: nat)
    requires InHeap(h, xs)
    ensures forall i :: 0 <= i < |xs| ==> h[xs[i]].flagNsize <= m
    ensures xs == [] ==> m == 0
    ensures xs != [] ==> exists i :: 0 <= i < |xs| && h[xs[i]].flagNsize == m
  {
    if xs == [] then 0
    else
      var m := Largest(h, xs[..|xs| - 1]);
      var f := h[xs[|xs| - 1]].flagNsize;
      if m < f then f else m
  }

  /** The smallest positive size word among the nodes xs, `~(size_t)0` for
      none. */
  function Smallest(h: map<nat, Link>, xs: seq<nat>): (m: nat)
    requires InHeap(h, xs)
    ensures forall i :: 0 <= i < |xs| && h[xs[i]].flagNsize > 0 ==> m <= h[xs[i]].flagNsize
    ensures m == WORD - 1 || exists i :: 0 <= i < |xs| && h[xs[i]].flagNsize == m > 0
  {
    if xs == [] then WORD - 1
    else
      var m := Smallest(h, xs[..|xs| - 1]);
      var f := h[xs[|xs| - 1]].flagNsize;
      if f > 0 && m > f then f else m
  }

  /** What palloc_stats reports: the free total, the largest and the
      smallest positive size word on the list less one header, in size_t
      arithmetic, and the number of nodes. */
  function StatsOf(s: PoolState): Stats
    requires InHeap(s.heap, s.free)
  {
    var small := Smallest(s.heap, s.free);
    Stats(s.freeSize, Sub(Largest(s.heap, s.free), H),
          Sub(if small == WORD - 1 then 0 else small, H), |s.free|)
  }

  /** What palloc_stats reports about the nodes xs: `largest` is the size
      word of a largest node less one header, `smallest` that of a smallest
      node of positive size less one header, or `0 - H` when there is none;
      both in size_t arithmetic. */
  ghost predicate Reported(h: map<nat, Link>, xs: seq<nat>, largest: nat, smallest: nat)
    requires InHeap(h, xs)
  {
    && (xs != [] ==> exists i :: 0 <= i < |xs| && largest == Sub(h[xs[i]].flagNsize, H))
    && (forall i :: 0 <= i < |xs| && h[xs[i]].flagNsize >= H ==> h[xs[i]].flagNsize - H <= largest)
    && ((forall i :: 0 <= i < |xs| ==> h[xs[i]].flagNsize == 0) ==> smallest == WORD - H)
    && ((exists i :: 0 <= i < |xs| && h[xs[i]].flagNsize > 0) ==>
          exists i :: 0 <= i < |xs| && h[xs[i]].flagNsize > 0 && smallest == Sub(h[xs[i]].flagNsize, H)
                   && forall k :: 0 <= k < |xs| && h[xs[k]].flagNsize > 0 ==> h[xs[i]].flagNsize <= h[xs[k]].flagNsize)
  }

  /** The two extremes, over nodes whose size words are below the flag. */
  lemma Extremes(h: map<nat, Link>, xs: seq<nat>)
    requires InHeap(h, xs) && forall i :: 0 <= i < |xs| ==> h[xs[i]].flagNsize < FLAG
    ensures var m := Smallest(h, xs);
            Reported(h, xs, Sub(Largest(h, xs), H), Sub(if m == WORD - 1 then 0 else m, H))
  {
    if xs != [] {
      var l := Largest(h, xs);
      var k :| 0 <= k < |xs| && h[xs[k]].flagNsize == l;
    }
    var m := Smallest(h, xs);
    if m != WORD - 1 {
      var k :| 0 <= k < |xs| && h[xs[k]].flagNsize == m > 0;
    }
  }

  /** On a valid pool palloc_stats returns the free total, counts every node
      of the free list, and reports its extremes as Reported says. (A node's
      size word is its size: nodes carry no flag.) */
  lemma StatsValid(s: PoolState)
    requires Valid(s)
    ensures InHeap(s.heap, s.free)
    ensures var st := StatsOf(s);
            && st.links == |s.free| && st.free == SumSizes(s.heap, s.free)
            && Reported(s.heap, s.free, st.largest, st.smallest)
  {
    FreeBound(s);
    forall i | 0 <= i < |s.free| ensures s.heap[s.free[i]].flagNsize < FLAG {
      assert s.free[i] in s.blocks;
    }
    Extremes(s.heap, s.free);
  }

  /** With no arena the subtractions of lines 178 and 181 wrap: the largest
      and the smallest block are both reported as 0xFFFFFFF8. */
  lemma StatsEmpty()
    ensures StatsOf(Empty()) == Stats(0, WORD - H, WORD - H, 0)
  {
  }
}
