/**
 * The allocator never leaves two free blocks of positive size side by
 * side: the empty pool has none, palloc splits a free block only into an
 * allocated one and a free rest whose neighbour was not free, pfree merges
 * the freed block with a free neighbour on either side, and palloc_init
 * adds a block whose neighbour is its own sentinel.
 */
module PallocCoalesce {
  import opened PallocSpec
  import opened PallocLists
  import opened PallocAlloc
  import opened PallocFree
  import opened PallocInit

  /** In a coalesced pool, whatever follows a free block of positive size
      is closed. */
  lemma ClosedAfter(s: PoolState, b: nat)
    requires Coalesced(s) && b in s.blocks && b in s.heap
    requires !Allocated(s.heap[b]) && Size(s.heap[b]) > 0
    ensures Closed(s.heap, b + Size(s.heap[b]))
  {
    assert Followed(s.heap, b);
  }

  /** A pool is coalesced when the block at `p` and every other block are
      followed as they should be. */
  lemma CoalescedFromParts(t: PoolState, p: nat)
    requires Followed(t.heap, p)
    requires forall b :: b in t.blocks && b != p ==> Followed(t.heap, b)
    ensures Coalesced(t)
  {
  }

  // ----- the empty pool -----

  lemma EmptyCoalesced()
    ensures Coalesced(Empty())
  {
  }

  // ----- palloc -----

  /** The size words and blocks Take leaves when it hands out the free
      block at `a` for `size` bytes: the block is flagged, a rest of more
      than two headers becomes a block of its own, and no other size word
      changes. */
  ghost predicate Carved(s: PoolState, t: PoolState, a: nat, size: nat)
    requires a in s.heap
  {
    var l := s.heap[a];
    var split := l.flagNsize - size > 2 * H;
    && (forall b :: b in t.blocks ==> b in s.blocks || (split && b == a + size))
    && a in t.heap && Allocated(t.heap[a])
    && (split ==> a + size in t.heap && t.heap[a + size].flagNsize == l.flagNsize - size)
    && (forall x :: x in s.heap && x != a && (split ==> x != a + size) ==>
          x in t.heap && t.heap[x].flagNsize == s.heap[x].flagNsize)
  }

  lemma TookCarved(s: PoolState, t: PoolState, i: nat, size: nat)
    requires AtNode(s, i) && Took(s, t, i, size) && size < FLAG
    ensures Carved(s, t, s.free[i], size)
  {
  }

  /** The block that follows a block of positive size is a block. */
  lemma TiledNext(s: PoolState, b: nat)
    requires Headed(s) && Tiled(s) && b in s.blocks && Size(s.heap[b]) > 0
    ensures b + Size(s.heap[b]) in s.blocks
  {
  }

  /** No block starts inside another. */
  lemma TiledInside(s: PoolState, a: nat, x: nat)
    requires Headed(s) && Tiled(s) && a in s.blocks && a < x < a + Extent(s.heap[a])
    ensures x !in s.blocks
  {
  }

  /** After Take, a free block of positive size is followed by a closed
      header: the rest by what followed the block it was cut from, an old
      block by what followed it before. */
  lemma TookClosed(s: PoolState, t: PoolState, a: nat, size: nat, b: nat)
    requires Headed(s) && Coalesced(s)
    requires a in s.blocks && !Allocated(s.heap[a]) && 0 < size <= Size(s.heap[a])
    requires a + Size(s.heap[a]) in s.blocks
    requires s.heap[a].flagNsize - size > 2 * H ==> a + size !in s.blocks
    requires Carved(s, t, a, size) && b in t.blocks
    requires b in s.blocks && Size(s.heap[b]) > 0 ==> b + Size(s.heap[b]) in s.blocks
    requires b in t.heap && !Allocated(t.heap[b]) && Size(t.heap[b]) > 0
    ensures Closed(t.heap, b + Size(t.heap[b]))
  {
    var split := s.heap[a].flagNsize - size > 2 * H;
    ClosedAfter(s, a);
    if split && b == a + size {
      assert b + Size(t.heap[b]) == a + Size(s.heap[a]);
    } else {
      assert b in s.blocks && b != a;
      ClosedAfter(s, b);
    }
  }

  lemma TookFollowed(s: PoolState, t: PoolState, a: nat, size: nat, b: nat)
    requires Headed(s) && Tiled(s) && Coalesced(s)
    requires a in s.blocks && !Allocated(s.heap[a]) && 0 < size <= Size(s.heap[a])
    requires Carved(s, t, a, size) && b in t.blocks
    ensures Followed(t.heap, b)
  {
    if b in t.heap && !Allocated(t.heap[b]) && Size(t.heap[b]) > 0 {
      TiledNext(s, a);
      if s.heap[a].flagNsize - size > 2 * H {
        TiledInside(s, a, a + size);
      }
      if b in s.blocks && Size(s.heap[b]) > 0 {
        TiledNext(s, b);
      }
      TookClosed(s, t, a, size, b);
    }
  }

  /** Take keeps a coalesced pool coalesced. */
  lemma TookCoalesced(s: PoolState, t: PoolState, a: nat, size: nat)
    requires Headed(s) && Tiled(s) && Coalesced(s)
    requires a in s.blocks && !Allocated(s.heap[a]) && 0 < size <= Size(s.heap[a])
    requires Carved(s, t, a, size)
    ensures Coalesced(t)
  {
    forall b | b in t.blocks ensures Followed(t.heap, b) {
      TookFollowed(s, t, a, size, b);
    }
  }

  /** palloc(n) keeps the pool coalesced, for a request that does not wrap. */
  lemma AllocCoalesced(s: PoolState, n: nat)
    requires Valid(s) && Coalesced(s) && n < WORD && Representable(n)
    ensures Chained(s) && Valid(Alloc(s, n).0) && Coalesced(Alloc(s, n).0)
  {
    AllocValid(s, n);
    if Alloc(s, n).1 != NULL {
      AllocTakes(s, n);
      RoundedBounds(n);
      var i := FitIndex(s, Rounded(n), 0);
      NodeFacts(s, i);
      TakeTook(s, i, Rounded(n));
      TookCarved(s, Alloc(s, n).0, i, Rounded(n));
      TookCoalesced(s, Alloc(s, n).0, s.free[i], Rounded(n));
    }
  }

  // ----- pfree -----

  /** A node of an increasing list that lies below a bound not above the
      node at j lies at or below the node at j - 1. */
  lemma BelowNode(xs: seq<nat>, j: nat, x: nat, hi: nat)
    requires Increasing(xs) && j < |xs| && x in xs && x < hi <= xs[j]
    ensures j > 0 && x <= xs[j - 1]
  {
    var k :| 0 <= k < |xs| && xs[k] == x;
  }

  /** A node of an increasing list that lies above the node at j - 1 and
      not above the node at j is the node at j. */
  lemma AtNodeJ(xs: seq<nat>, j: nat, lo: nat, x: nat)
    requires Increasing(xs) && j < |xs| && x in xs && lo < x <= xs[j]
    requires j > 0 ==> xs[j - 1] < lo
    ensures x == xs[j]
  {
    var k :| 0 <= k < |xs| && xs[k] == x;
  }

  /** The parts of the invariant the pfree proofs below use. */
  ghost predicate Laid(s: PoolState) {
    Headed(s) && Tiled(s) && Listed(s)
  }

  /** The block that ends where the freed block starts, when it is free
      and of positive size, is the node pfree merges it with. */
  lemma EndsAtFreed(s: PoolState, a: nat, j: nat, b: nat)
    requires Laid(s) && Frees(s, a, j)
    requires b in s.blocks && !Allocated(s.heap[b]) && Size(s.heap[b]) > 0 && b + Size(s.heap[b]) == a
    ensures MergesBack(s, a, j) && MergedAt(s, a, j) == b
  {
    BelowNode(s.free, j, b, a);
    assert s.free[j - 1] in s.blocks;
  }

  /** The block that starts where the freed block ends is the node at j, or
      it is closed. */
  lemma StartsAtFreedEnd(s: PoolState, a: nat, j: nat)
    requires Laid(s) && Frees(s, a, j)
    ensures var c := a + Size(s.heap[a]);
            c in s.blocks && (c == s.free[j] || Closed(s.heap, c))
  {
    var c := a + Size(s.heap[a]);
    assert c in s.blocks;
    if !Allocated(s.heap[c]) && Size(s.heap[c]) > 0 {
      AtNodeJ(s.free, j, a, c);
    }
  }

  /** What the order of the free list tells about the neighbours of the
      freed block at `a`: the block after it is the node at j or closed,
      and a free block of positive size that ends at `a` is the node pfree
      merges it with. */
  ghost predicate Flanked(s: PoolState, a: nat, j: nat)
    requires a in s.heap && AtNode(s, j)
  {
    var c := a + Size(s.heap[a]);
    && c in s.blocks && (c == s.free[j] || Closed(s.heap, c))
    && forall b :: b in s.blocks && b in s.heap && !Allocated(s.heap[b]) && Size(s.heap[b]) > 0 && b + Size(s.heap[b]) == a ==>
         MergesBack(s, a, j) && MergedAt(s, a, j) == b
  }

  lemma FreesFlanked(s: PoolState, a: nat, j: nat)
    requires Laid(s) && Frees(s, a, j)
    ensures Flanked(s, a, j)
  {
    StartsAtFreedEnd(s, a, j);
    forall b | b in s.blocks && b in s.heap && !Allocated(s.heap[b]) && Size(s.heap[b]) > 0 && b + Size(s.heap[b]) == a
      ensures MergesBack(s, a, j) && MergedAt(s, a, j) == b
    {
      EndsAtFreed(s, a, j, b);
    }
  }

  /** The blocks after pfree are old blocks, without the freed one when it
      merged backwards and without the node at j when the block absorbed
      it. */
  ghost predicate Kept(s: PoolState, t: PoolState, a: nat, j: nat)
    requires a in s.heap && AtNode(s, j)
  {
    forall b :: b in t.blocks ==>
      && b in s.blocks
      && (MergesBack(s, a, j) ==> b != a)
      && (MergesForth(s, a, j) && Size(s.heap[s.free[j]]) > 0 ==> b != s.free[j])
  }

  lemma ReblockedKept(s: PoolState, t: PoolState, a: nat, j: nat)
    requires a in s.heap && AtNode(s, j) && Reblocked(s, t, a, j)
    ensures Kept(s, t, a, j)
  {
  }

  /** After pfree merges forwards, the merged block ends where the absorbed
      node ended. */
  lemma FreedForthClosed(s: PoolState, t: PoolState, a: nat, j: nat)
    requires Frees(s, a, j) && Reheaded(s, t, a, j) && MergesForth(s, a, j)
    requires var nx := s.free[j]; Size(s.heap[nx]) > 0 ==> Closed(s.heap, nx + Size(s.heap[nx]))
    ensures var p := MergedAt(s, a, j);
            p in t.heap && Closed(t.heap, p + Size(t.heap[p]))
  {
    MergeFacts(s, a, j);
  }

  /** After pfree without a forward merge, the merged block ends where the
      freed block ended. */
  lemma FreedStopsClosed(s: PoolState, t: PoolState, a: nat, j: nat)
    requires Frees(s, a, j) && Reheaded(s, t, a, j) && !MergesForth(s, a, j)
    requires var c := a + Size(s.heap[a]); c in s.heap && Closed(s.heap, c)
    ensures var p := MergedAt(s, a, j);
            p in t.heap && Closed(t.heap, p + Size(t.heap[p]))
  {
    MergeFacts(s, a, j);
  }

  /** After pfree the merged block is followed by a closed header. */
  lemma FreedMergedFollowed(s: PoolState, t: PoolState, a: nat, j: nat)
    requires Headed(s) && Coalesced(s) && Frees(s, a, j) && Flanked(s, a, j) && Reheaded(s, t, a, j)
    requires s.last in s.heap && Size(s.heap[s.last]) == 0
    ensures Followed(t.heap, MergedAt(s, a, j))
  {
    MergeFacts(s, a, j);
    var nx: nat := s.free[j];
    if MergesForth(s, a, j) {
      if Size(s.heap[nx]) > 0 {
        ClosedAfter(s, nx);
      }
      FreedForthClosed(s, t, a, j);
    } else {
      FreedStopsClosed(s, t, a, j);
    }
  }

  /** After pfree a block other than the merged one keeps its size word,
      and what follows it stays closed. */
  lemma FreedKeepsClosed(s: PoolState, t: PoolState, a: nat, j: nat, b: nat)
    requires Frees(s, a, j) && Reheaded(s, t, a, j)
    requires b in s.blocks && b in s.heap && b != a && b != MergedAt(s, a, j)
    requires t.heap[b].flagNsize == s.heap[b].flagNsize
    requires var c := b + Size(s.heap[b]); c in s.heap && c != a && Closed(s.heap, c)
    ensures b in t.heap && Closed(t.heap, b + Size(t.heap[b]))
  {
    MergeFacts(s, a, j);
  }

  /** After pfree any other block is followed as it should be. */
  lemma FreedOtherFollowed(s: PoolState, t: PoolState, a: nat, j: nat, b: nat)
    requires Headed(s) && Tiled(s) && Coalesced(s) && Frees(s, a, j) && Flanked(s, a, j)
    requires Kept(s, t, a, j) && Reheaded(s, t, a, j)
    requires b in t.blocks && b != MergedAt(s, a, j)
    ensures Followed(t.heap, b)
  {
    MergeFacts(s, a, j);
    assert b in s.blocks && b != a;
    assert t.heap[b].flagNsize == s.heap[b].flagNsize;
    if !Allocated(s.heap[b]) && Size(s.heap[b]) > 0 {
      ClosedAfter(s, b);
      assert b + Size(s.heap[b]) in s.blocks;
      FreedKeepsClosed(s, t, a, j, b);
    }
  }

  /** Freeing the live block at `a` keeps a coalesced pool coalesced. */
  lemma FreedCoalesced(s: PoolState, t: PoolState, a: nat, j: nat)
    requires Headed(s) && Tiled(s) && Coalesced(s) && Frees(s, a, j) && Flanked(s, a, j)
    requires s.last in s.heap && Size(s.heap[s.last]) == 0
    requires Kept(s, t, a, j) && Reheaded(s, t, a, j)
    ensures Coalesced(t)
  {
    FreedMergedFollowed(s, t, a, j);
    forall b | b in t.blocks && b != MergedAt(s, a, j) ensures Followed(t.heap, b) {
      FreedOtherFollowed(s, t, a, j, b);
    }
    CoalescedFromParts(t, MergedAt(s, a, j));
  }

  /** Releasing a live block keeps a coalesced pool coalesced. */
  lemma ReleaseCoalesced(s: PoolState, a: nat)
    requires Valid(s) && Coalesced(s) && a in s.heap && Allocated(s.heap[a])
    ensures InsertReady(Cleared(s, a), a) && Valid(Release(s, a)) && Coalesced(Release(s, a))
  {
    ReleaseValid(s, a);
    ReleaseFreed(s, a);
    var j := InsertIndex(s, a, 0);
    ReblockedKept(s, Release(s, a), a, j);
    FreesFlanked(s, a, j);
    assert s.last in s.blocks;
    FreedCoalesced(s, Release(s, a), a, j);
  }

  /** pfree keeps the pool coalesced, whatever header word it finds. */
  lemma FreeCoalesced(s: PoolState, p: nat)
    requires Valid(s) && Coalesced(s) && (p == NULL || (p >= H && p - H in s.heap))
    ensures Valid(Free(s, p)) && Coalesced(Free(s, p))
  {
    if p == NULL {
      FreeIgnores(s, p);
    } else {
      FreeCoalescedAt(s, p, p - H);
    }
  }

  lemma FreeCoalescedAt(s: PoolState, p: nat, a: nat)
    requires Valid(s) && Coalesced(s) && p == a + H && a in s.heap
    ensures Valid(Free(s, p)) && Coalesced(Free(s, p))
  {
    if Allocated(s.heap[a]) {
      FreeReleases(s, p, a);
      ReleaseCoalesced(s, a);
    } else {
      FreeIgnores(s, p);
    }
  }

  // ----- palloc_init -----

  /** After palloc_init a free block of positive size is followed by a
      closed header: the arena's block by its sentinel, an old block by the
      old block that followed it. */
  lemma GrownClosed(s: PoolState, t: PoolState, start: nat, size: nat, b: nat)
    requires Headed(s) && Tiled(s) && Coalesced(s) && Headed(t) && size >= H && Added(s, t, start, size)
    requires start + size <= FLAG && b in t.blocks
    requires b in t.heap && !Allocated(t.heap[b]) && Size(t.heap[b]) > 0
    ensures Closed(t.heap, b + Size(t.heap[b]))
  {
    if b != start && b != Sentinel(start, size) {
      assert b in s.blocks;
      ClosedAfter(s, b);
      assert b + Size(s.heap[b]) in s.blocks;
    }
  }

  lemma GrownFollowed(s: PoolState, t: PoolState, start: nat, size: nat, b: nat)
    requires Headed(s) && Tiled(s) && Coalesced(s) && Headed(t) && size >= H && Added(s, t, start, size)
    requires start + size <= FLAG && b in t.blocks
    ensures Followed(t.heap, b)
  {
    if b in t.heap && !Allocated(t.heap[b]) && Size(t.heap[b]) > 0 {
      GrownClosed(s, t, start, size, b);
    }
  }

  /** palloc_init keeps a coalesced pool coalesced. */
  lemma GrownCoalesced(s: PoolState, t: PoolState, start: nat, size: nat, j: nat)
    requires Headed(s) && Tiled(s) && Coalesced(s) && PallocInit.Fits(s, start, size, j) && Grown(s, t, start, size, j) && Headed(t)
    ensures Coalesced(t)
  {
    GrownAdded(s, t, start, size, j);
    forall b | b in t.blocks ensures Followed(t.heap, b) {
      GrownFollowed(s, t, start, size, b);
    }
  }

  /** `palloc_init(pstart, pend)` keeps the pool coalesced when the aligned
      arena is ignored or lies apart from every block. */
  lemma InitCoalesced(s: PoolState, pstart: nat, pend: nat)
    requires Valid(s) && Coalesced(s) && pstart < WORD && pend < WORD && Placeable(s, pstart, pend)
    ensures Valid(Init(s, pstart, pend)) && Coalesced(Init(s, pstart, pend))
  {
    InitValid(s, pstart, pend);
    var start := Aligned(pstart);
    var size := Sub(Aligned(pend), start);
    InitChanges(s, start, size);
    if size > 2 * H && start !in s.free {
      var j := InitIndex(s, start, 0);
      ValidAnchored(s);
      InitIndexAt(s, start);
      assert PallocInit.Fits(s, start, size, j);
      GrownCoalesced(s, Init(s, pstart, pend), start, size, j);
    }
  }
}
