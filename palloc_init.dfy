/**
 * What palloc_init does to a valid pool: the cases it ignores, the new
 * arena's block and end sentinel entering the free list in address order,
 * and that the pool stays valid when the arena lies apart from the blocks
 * already there.
 */
module PallocInit {
  import opened PallocSpec
  import opened PallocLists

  /** The arena [start, start + size) overlaps no block of the pool. */
  ghost predicate Apart(s: PoolState, start: nat, size: nat)
    requires Headed(s)
  {
    forall b :: b in s.blocks ==> b + Extent(s.heap[b]) <= start || start + size <= b
  }

  /** The facts about a new arena that the proofs use: it is large enough,
      lies in the lower half of the address space apart from the pool, and
      j is the first node at or above it. */
  ghost predicate Fits(s: PoolState, start: nat, size: nat, j: nat) {
    && Headed(s) && InHeap(s.heap, s.free)
    && 0 < start && size > 2 * H && start + size <= FLAG
    && j <= |s.free| && (forall k :: 0 <= k < j ==> s.free[k] < start)
    && (j < |s.free| ==> start < s.free[j])
    && Apart(s, start, size)
  }

  /** The state palloc_init leaves when it adds the arena of `size` bytes at
      `start` in front of the node at j: the arena's block and its end
      sentinel enter the free list at j, the link before them points at the
      block, and `_ppool_last` moves to the new sentinel when the arena is
      the highest. */
  ghost predicate Grown(s: PoolState, t: PoolState, start: nat, size: nat, j: nat)
    requires j <= |s.free| && (j > 0 ==> s.free[j - 1] in s.heap) && size >= H
  {
    var e := Sentinel(start, size);
    && t.heap.Keys == s.heap.Keys + {start, e}
    && t.heap[start] == Link(e, size - H)
    && t.heap[e] == (if j > 0 && s.free[j - 1] == e then Link(start, 0)
                     else Link(if j < |s.free| then s.free[j] else NULL, 0))
    && (j > 0 && s.free[j - 1] != e ==> t.heap[s.free[j - 1]] == s.heap[s.free[j - 1]].(next := start))
    && (forall x :: x in s.heap && x != start && x != e && (j > 0 ==> x != s.free[j - 1]) ==> t.heap[x] == s.heap[x])
    && t.anchor == (if j == 0 then start else s.anchor)
    && t.last == (if j == |s.free| then e else s.last)
    && t.freeSize == Add(s.freeSize, size - H) && t.poolSize == Add(s.poolSize, size)
    && t.numAlloc == s.numAlloc && t.numFree == s.numFree
    && t.blocks == s.blocks + {start, e}
    && t.free == Insert(Insert(s.free, j, e), j, start)
  }

  /** Two nodes inserted at j, in order. */
  lemma InsertTwo(xs: seq<nat>, j: nat, a: nat, b: nat)
    requires j <= |xs|
    ensures xs[..j] + [a, b] + xs[j..] == Insert(Insert(xs, j, b), j, a)
  {
    var r := Insert(Insert(xs, j, b), j, a);
    var q := xs[..j] + [a, b] + xs[j..];
    assert |r| == |q|;
    forall k | 0 <= k < |q| ensures q[k] == r[k] {
      if k < j {
        assert q[k] == xs[k];
      } else if k == j {
        assert q[k] == a;
      } else if k == j + 1 {
        assert q[k] == b;
      } else {
        assert q[k] == xs[k - 2];
      }
    }
  }

  /** The positions in the free list after the two insertions. */
  lemma GrownAt(xs: seq<nat>, j: nat, a: nat, b: nat)
    requires j <= |xs|
    ensures var r := Insert(Insert(xs, j, b), j, a);
            && |r| == |xs| + 2 && r[j] == a && r[j + 1] == b
            && (forall k :: 0 <= k < j ==> r[k] == xs[k])
            && (forall k :: j + 2 <= k < |r| ==> r[k] == xs[k - 2])
  {
    var r := Insert(Insert(xs, j, b), j, a);
    forall k | j + 2 <= k < |r| ensures r[k] == xs[k - 2] {
      assert r[k] == Insert(xs, j, b)[k - 1];
    }
  }

  /** The anchor and `_ppool_last` are the ends of the free list. */
  ghost predicate Anchored(s: PoolState) {
    if s.free == [] then s.anchor == NULL && s.last == NULL
    else s.anchor == s.free[0] && s.anchor != NULL && s.last == s.free[|s.free| - 1] && s.last != NULL
  }

  lemma ValidAnchored(s: PoolState)
    requires Valid(s)
    ensures Initing(s) && InHeap(s.heap, s.free) && Anchored(s) && Increasing(s.free)
  {
    FreeBound(s);
    if s.free != [] {
      assert s.free[0] in s.blocks;
    }
  }

  /** The headers palloc_init writes for the arena at `start` entering
      the free list at j: the block, its sentinel pointing at the node at j,
      and the node before them pointing at the block. */
  ghost function Relinked(s: PoolState, start: nat, size: nat, j: nat): map<nat, Link>
    requires j <= |s.free| && (j > 0 ==> s.free[j - 1] in s.heap) && size >= H
  {
    var e := Sentinel(start, size);
    var h := s.heap[start := Link(e, size - H)][e := Link(if j < |s.free| then s.free[j] else NULL, 0)];
    if j > 0 then h[s.free[j - 1] := h[s.free[j - 1]].(next := start)] else h
  }

  /** `_set_block` through a header below the arena. */
  lemma SetBlockAt(s: PoolState, start: nat, e: nat, size: nat, next: nat, p: nat)
    requires p in s.heap && p != start
    ensures var h := s.heap[start := Link(e, size)][e := Link(next, 0)];
            SetBlock(s, start, e, size, next, At(p)) == s.(heap := h[p := h[p].(next := start)])
  {
  }

  /** Grow after the headers are written completes Grown. */
  lemma GrowKeeps(s: PoolState, s2: PoolState, start: nat, size: nat, j: nat)
    requires j <= |s.free| && (j > 0 ==> s.free[j - 1] in s.heap && s.free[j - 1] < start)
    requires 2 * H < size < WORD
    requires s2.heap == Relinked(s, start, size, j)
    requires s2.anchor == (if j == 0 then start else s.anchor)
    requires s2.last == (if j == |s.free| then Sentinel(start, size) else s.last)
    requires s2 == s.(heap := s2.heap, anchor := s2.anchor, last := s2.last)
    ensures Grown(s, Grow(s2, start, size, j), start, size, j)
  {
    InsertTwo(s.free, j, start, Sentinel(start, size));
  }

  /** palloc_init of an arena that is large enough and does not start at a
      node of the free list leaves the state Grown describes. */
  lemma InitGrows(s: PoolState, start: nat, size: nat, j: nat)
    requires Initing(s) && Anchored(s) && 2 * H < size < WORD
    requires j == InitIndex(s, start, 0) && (j == |s.free| || s.free[j] > start)
    ensures Grown(s, InitAt(s, start, size), start, size, j)
  {
    if j == |s.free| {
      InitAppends(s, start, size, j);
    } else {
      InitInserts(s, start, size, j);
    }
  }

  /** Lines 204-212: the arena lies above every node and becomes the last. */
  lemma InitAppends(s: PoolState, start: nat, size: nat, j: nat)
    requires Initing(s) && Anchored(s) && 2 * H < size < WORD
    requires j == InitIndex(s, start, 0) && j == |s.free|
    ensures Grown(s, InitAt(s, start, size), start, size, j)
  {
    var e := Sentinel(start, size);
    var r := if s.last == NULL then Null else At(s.last);
    var s1 := SetBlock(s.(last := e), start, e, size - H, NULL, r);
    var s2 := if s1.anchor == NULL then SetNext(s1, Anchor, start) else s1;
    assert InitAt(s, start, size) == Grow(s2, start, size, j);
    if s.free != [] {
      var prev := s.free[j - 1];
      assert prev == s.last && prev < start;
      SetBlockAt(s.(last := e), start, e, size - H, NULL, prev);
    }
    GrowKeeps(s, s2, start, size, j);
  }

  /** Lines 215-218: the arena lies below the node at j. */
  lemma InitInserts(s: PoolState, start: nat, size: nat, j: nat)
    requires Initing(s) && Anchored(s) && 2 * H < size < WORD
    requires j == InitIndex(s, start, 0) && j < |s.free| && s.free[j] > start
    ensures Grown(s, InitAt(s, start, size), start, size, j)
  {
    var e := Sentinel(start, size);
    var s1 := SetBlock(s, start, e, size - H, s.free[j], PrevRef(s.free, j));
    assert InitAt(s, start, size) == Grow(s1, start, size, j);
    if j > 0 {
      var prev := s.free[j - 1];
      assert prev < start;
      SetBlockAt(s, start, e, size - H, s.free[j], prev);
    }
    GrowKeeps(s, s1, start, size, j);
  }

  // ----- the pool stays valid -----

  /** The blocks after palloc_init: the old ones with their size words, and
      the arena's block and sentinel. */
  ghost predicate Added(s: PoolState, t: PoolState, start: nat, size: nat)
    requires Headed(s) && Headed(t) && size >= H
  {
    var e := Sentinel(start, size);
    && t.blocks == s.blocks + {start, e}
    && t.heap[start].flagNsize == size - H && t.heap[e].flagNsize == 0
    && forall b :: b in s.blocks ==> b != start && b != e && t.heap[b].flagNsize == s.heap[b].flagNsize
  }

  /** Where the arena lies relative to its neighbours in the free list. */
  lemma FitsBetween(s: PoolState, start: nat, size: nat, j: nat)
    requires Fits(s, start, size, j) && Increasing(s.free)
    requires forall i :: 0 <= i < |s.free| ==> s.free[i] in s.blocks
    ensures j > 0 ==> s.free[j - 1] < start
    ensures j < |s.free| ==> start + size <= s.free[j]
  {
    if j < |s.free| {
      assert s.free[j] + Extent(s.heap[s.free[j]]) <= start || start + size <= s.free[j];
    }
  }

  lemma GrownAdded(s: PoolState, t: PoolState, start: nat, size: nat, j: nat)
    requires Fits(s, start, size, j) && Grown(s, t, start, size, j) && Headed(t)
    ensures Added(s, t, start, size)
  {
  }

  lemma GrownWords(s: PoolState, t: PoolState, start: nat, size: nat, j: nat)
    requires Fits(s, start, size, j) && Words(s) && Grown(s, t, start, size, j)
    requires j > 0 ==> !Allocated(s.heap[s.free[j - 1]])
    ensures Headed(t) && Words(t)
  {
    var e := Sentinel(start, size);
    forall x | x in t.heap ensures t.heap[x].flagNsize < WORD && (Allocated(t.heap[x]) ==>
        x in t.blocks && t.heap[x].next == NULL && Size(t.heap[x]) > 0) {
      if x == start || x == e {
      } else if j > 0 && x == s.free[j - 1] {
      } else {
        assert t.heap[x] == s.heap[x];
      }
    }
  }

  lemma AddedBounded(s: PoolState, t: PoolState, start: nat, size: nat)
    requires Headed(s) && Tiled(s) && Headed(t) && size > 2 * H && Added(s, t, start, size)
    requires 0 < start && start + size <= FLAG
    ensures forall b :: b in t.blocks ==> 0 < b && b + Extent(t.heap[b]) <= FLAG
    ensures forall b :: b in t.blocks && Size(t.heap[b]) > 0 ==> b + Size(t.heap[b]) in t.blocks
  {
    var e := Sentinel(start, size);
    assert t.heap[start].flagNsize == size - H;
    assert size - H < FLAG;
    assert Size(t.heap[start]) == size - H;
    assert Extent(t.heap[start]) == size - H && Extent(t.heap[e]) == H;
  }

  lemma AddedApart(s: PoolState, t: PoolState, start: nat, size: nat)
    requires Headed(s) && Headed(t) && size > 2 * H && Added(s, t, start, size) && Apart(s, start, size)
    requires start + size <= FLAG
    requires forall b, c :: b in s.blocks && c in s.blocks && b < c ==> b + Extent(s.heap[b]) <= c
    ensures forall b, c :: b in t.blocks && c in t.blocks && b < c ==> b + Extent(t.heap[b]) <= c
  {
    var e := Sentinel(start, size);
    assert Size(t.heap[start]) == size - H;
    assert Extent(t.heap[start]) == size - H && Extent(t.heap[e]) == H;
    forall b, c | b in t.blocks && c in t.blocks && b < c ensures b + Extent(t.heap[b]) <= c {
      if b in s.blocks && c in s.blocks {
        assert Extent(t.heap[b]) == Extent(s.heap[b]);
      } else if b in s.blocks {
        assert Extent(t.heap[b]) == Extent(s.heap[b]);
        assert b + Extent(s.heap[b]) <= start || start + size <= b;
      } else if c in s.blocks {
        assert c + Extent(s.heap[c]) <= start || start + size <= c;
      }
    }
  }

  lemma GrownTiled(s: PoolState, t: PoolState, start: nat, size: nat, j: nat)
    requires Fits(s, start, size, j) && Tiled(s) && Grown(s, t, start, size, j) && Headed(t)
    ensures Tiled(t)
  {
    GrownAdded(s, t, start, size, j);
    AddedBounded(s, t, start, size);
    AddedApart(s, t, start, size);
  }

  lemma AddedListed(s: PoolState, t: PoolState, start: nat, size: nat, j: nat)
    requires Headed(s) && Listed(s) && Headed(t) && size > 2 * H && Added(s, t, start, size)
    requires start + size <= FLAG && j <= |s.free|
    requires j > 0 ==> s.free[j - 1] < start
    requires j < |s.free| ==> start + size <= s.free[j]
    requires t.free == Insert(Insert(s.free, j, Sentinel(start, size)), j, start)
    ensures Listed(t)
  {
    AddedOrdered(s.free, t.free, j, start, Sentinel(start, size));
    AddedNodes(s, t, start, size, j);
    AddedComplete(s, t, start, size, j);
  }

  /** The list with the block and its sentinel inserted stays in address
      order. */
  lemma AddedOrdered(xs: seq<nat>, ys: seq<nat>, j: nat, a: nat, b: nat)
    requires Increasing(xs) && j <= |xs| && a < b
    requires j > 0 ==> xs[j - 1] < a
    requires j < |xs| ==> b < xs[j]
    requires ys == Insert(Insert(xs, j, b), j, a)
    ensures Increasing(ys)
  {
    InsertTwoOrdered(xs, j, a, b);
  }

  /** Every node of the grown list is a free block. */
  lemma AddedNodes(s: PoolState, t: PoolState, start: nat, size: nat, j: nat)
    requires Headed(s) && Listed(s) && Headed(t) && size > 2 * H && Added(s, t, start, size)
    requires start + size <= FLAG && j <= |s.free|
    requires j > 0 ==> s.free[j - 1] < start
    requires j < |s.free| ==> start + size <= s.free[j]
    requires t.free == Insert(Insert(s.free, j, Sentinel(start, size)), j, start)
    ensures forall i :: 0 <= i < |t.free| ==> t.free[i] in t.blocks && !Allocated(t.heap[t.free[i]])
  {
    var e := Sentinel(start, size);
    InsertTwoOrdered(s.free, j, start, e);
    forall i | 0 <= i < |t.free| ensures t.free[i] in t.blocks && !Allocated(t.heap[t.free[i]]) {
      var x := t.free[i];
      if x != start && x != e {
        assert x in s.free;
        var k :| 0 <= k < |s.free| && s.free[k] == x;
      }
    }
  }

  /** Every free block of positive size is on the grown list. */
  lemma AddedComplete(s: PoolState, t: PoolState, start: nat, size: nat, j: nat)
    requires Headed(s) && Listed(s) && Headed(t) && size > 2 * H && Added(s, t, start, size)
    requires start + size <= FLAG && j <= |s.free|
    requires j > 0 ==> s.free[j - 1] < start
    requires j < |s.free| ==> start + size <= s.free[j]
    requires t.free == Insert(Insert(s.free, j, Sentinel(start, size)), j, start)
    ensures forall b :: b in t.blocks && !Allocated(t.heap[b]) && Size(t.heap[b]) > 0 ==> b in t.free
  {
    var e := Sentinel(start, size);
    InsertTwoOrdered(s.free, j, start, e);
    forall b | b in t.blocks && !Allocated(t.heap[b]) && Size(t.heap[b]) > 0 ensures b in t.free {
      if b != start && b != e {
        assert t.heap[b].flagNsize == s.heap[b].flagNsize;
        assert b in s.free;
      }
    }
  }

  lemma GrownListed(s: PoolState, t: PoolState, start: nat, size: nat, j: nat)
    requires Fits(s, start, size, j) && Listed(s) && Grown(s, t, start, size, j) && Headed(t)
    ensures Listed(t)
  {
    var e := Sentinel(start, size);
    GrownAdded(s, t, start, size, j);
    FitsBetween(s, start, size, j);
    AddedListed(s, t, start, size, j);
  }

  /** The block and its sentinel inserted at j keep the list in address order. */
  lemma InsertTwoOrdered(xs: seq<nat>, j: nat, a: nat, b: nat)
    requires Increasing(xs) && j <= |xs| && a < b
    requires j > 0 ==> xs[j - 1] < a
    requires j < |xs| ==> b < xs[j]
    ensures Increasing(Insert(Insert(xs, j, b), j, a))
    ensures forall y :: y in Insert(Insert(xs, j, b), j, a) <==> y in xs || y == a || y == b
  {
    InsertOrdered(xs, j, b);
    InsertOrdered(Insert(xs, j, b), j, a);
  }

  /** The `next` words after palloc_init, from the positions in the list. */
  lemma LinkedGlue(s: PoolState, t: PoolState, start: nat, size: nat, j: nat)
    requires InHeap(s.heap, s.free) && Linked(s) && Increasing(s.free) && size > 2 * H && j <= |s.free|
    requires start + size <= FLAG && (j > 0 ==> s.free[j - 1] < start)
    requires j < |s.free| ==> start + size <= s.free[j]
    requires Grown(s, t, start, size, j)
    ensures InHeap(t.heap, t.free) && Linked(t)
  {
    GrownAt(s.free, j, start, Sentinel(start, size));
    forall i | 0 <= i < |t.free| ensures t.free[i] in t.heap && t.heap[t.free[i]].next == Succ(t.free, i) {
      LinkedGlueAt(s, t, start, size, j, i);
    }
  }

  /** The node at position i of the grown list links to its successor. */
  lemma LinkedGlueAt(s: PoolState, t: PoolState, start: nat, size: nat, j: nat, i: nat)
    requires InHeap(s.heap, s.free) && Linked(s) && Increasing(s.free) && size > 2 * H && j <= |s.free|
    requires start + size <= FLAG && (j > 0 ==> s.free[j - 1] < start)
    requires j < |s.free| ==> start + size <= s.free[j]
    requires Grown(s, t, start, size, j) && i < |t.free|
    ensures t.free[i] in t.heap && t.heap[t.free[i]].next == Succ(t.free, i)
  {
    if i + 1 < j {
      LinkedBefore(s, t, start, size, j, i);
    } else if i > j + 1 {
      LinkedAfter(s, t, start, size, j, i);
    } else {
      GrownAt(s.free, j, start, Sentinel(start, size));
    }
  }

  /** A node before the new block keeps its header. */
  lemma LinkedBefore(s: PoolState, t: PoolState, start: nat, size: nat, j: nat, i: nat)
    requires InHeap(s.heap, s.free) && Linked(s) && Increasing(s.free) && size > 2 * H && j <= |s.free|
    requires start + size <= FLAG && (j > 0 ==> s.free[j - 1] < start)
    requires j < |s.free| ==> start + size <= s.free[j]
    requires Grown(s, t, start, size, j) && i + 1 < j
    ensures t.free[i] in t.heap && t.heap[t.free[i]].next == Succ(t.free, i)
  {
    GrownAt(s.free, j, start, Sentinel(start, size));
    assert s.free[i] < s.free[j - 1];
    assert t.heap[s.free[i]] == s.heap[s.free[i]];
  }

  /** A node after the new sentinel keeps its header. */
  lemma LinkedAfter(s: PoolState, t: PoolState, start: nat, size: nat, j: nat, i: nat)
    requires InHeap(s.heap, s.free) && Linked(s) && Increasing(s.free) && size > 2 * H && j <= |s.free|
    requires start + size <= FLAG && (j > 0 ==> s.free[j - 1] < start)
    requires j < |s.free| ==> start + size <= s.free[j]
    requires Grown(s, t, start, size, j) && j + 1 < i < |t.free|
    ensures t.free[i] in t.heap && t.heap[t.free[i]].next == Succ(t.free, i)
  {
    GrownAt(s.free, j, start, Sentinel(start, size));
    assert s.free[i - 2] >= s.free[j];
    assert t.heap[s.free[i - 2]] == s.heap[s.free[i - 2]];
  }

  lemma GrownLinked(s: PoolState, t: PoolState, start: nat, size: nat, j: nat)
    requires Fits(s, start, size, j) && Linked(s) && Increasing(s.free) && Grown(s, t, start, size, j)
    requires forall i :: 0 <= i < |s.free| ==> s.free[i] in s.blocks
    ensures InHeap(t.heap, t.free) && Linked(t)
  {
    FitsBetween(s, start, size, j);
    LinkedGlue(s, t, start, size, j);
  }

  lemma GrownEnded(s: PoolState, t: PoolState, start: nat, size: nat, j: nat)
    requires Fits(s, start, size, j) && Ended(s) && Increasing(s.free) && Grown(s, t, start, size, j) && Headed(t)
    requires forall i :: 0 <= i < |s.free| ==> s.free[i] in s.blocks
    ensures Ended(t)
  {
    var e := Sentinel(start, size);
    GrownAt(s.free, j, start, e);
    GrownAdded(s, t, start, size, j);
    FitsBetween(s, start, size, j);
    if j < |s.free| {
      assert s.free[|s.free| - 1] >= s.free[j];
    } else if s.free != [] {
      assert s.last < start;
    }
  }

  lemma GrownSum(s: PoolState, t: PoolState, start: nat, size: nat, j: nat)
    requires Fits(s, start, size, j) && Grown(s, t, start, size, j)
    requires s.freeSize == SumSizes(s.heap, s.free) && s.freeSize < FLAG
    requires forall i :: 0 <= i < |s.free| ==> s.free[i] in s.blocks
    ensures InHeap(t.heap, t.free) && t.freeSize == SumSizes(t.heap, t.free)
  {
    var e := Sentinel(start, size);
    GrownAdded(s, t, start, size, j);
    SumSame(s.heap, t.heap, s.free);
    SumInsert(t.heap, s.free, j, e);
    SumInsert(t.heap, Insert(s.free, j, e), j, start);
  }

  /** The arena's block and sentinel keep the pool valid. */
  lemma GrownValid(s: PoolState, t: PoolState, start: nat, size: nat, j: nat)
    requires Valid(s) && Fits(s, start, size, j) && Grown(s, t, start, size, j)
    ensures Valid(t)
  {
    FreeBound(s);
    if j > 0 {
      assert s.free[j - 1] in s.blocks;
    }
    GrownWords(s, t, start, size, j);
    GrownTiled(s, t, start, size, j);
    GrownListed(s, t, start, size, j);
    GrownLinked(s, t, start, size, j);
    GrownEnded(s, t, start, size, j);
    GrownSum(s, t, start, size, j);
  }

  // ----- palloc_init -----

  /** Where the arena's start falls in the free list decides what
      palloc_init does with it. */
  lemma InitIndexAt(s: PoolState, start: nat)
    requires Increasing(s.free)
    ensures var j := InitIndex(s, start, 0);
            start in s.free <==> j < |s.free| && s.free[j] == start
  {
    var j := InitIndex(s, start, 0);
    if start in s.free {
      var k :| 0 <= k < |s.free| && s.free[k] == start;
      assert s.free[j] <= s.free[k];
    }
  }

  /** palloc_init changes the pool exactly when the aligned arena is larger
      than two headers and does not start at a node of the free list; then
      the arena's block and sentinel enter the list at the first node above
      it. */
  lemma InitChanges(s: PoolState, start: nat, size: nat)
    requires Valid(s) && size < WORD
    ensures InitAt(s, start, size) != s <==> size > 2 * H && start !in s.free
    ensures size > 2 * H && start !in s.free ==>
              Grown(s, InitAt(s, start, size), start, size, InitIndex(s, start, 0))
  {
    ValidAnchored(s);
    InitIndexAt(s, start);
    if size > 2 * H && start !in s.free {
      var j := InitIndex(s, start, 0);
      InitGrows(s, start, size, j);
      InsertMembers(Insert(s.free, j, Sentinel(start, size)), j, start);
      assert start in InitAt(s, start, size).free;
    }
  }

  /** palloc_init keeps the pool valid when the arena lies in the lower half
      of the address space apart from every block, or starts at a node of the
      free list, which it ignores. */
  lemma InitValidAt(s: PoolState, start: nat, size: nat)
    requires Valid(s)
    requires size > 2 * H ==> 0 < start && start + size <= FLAG && (Apart(s, start, size) || start in s.free)
    ensures Valid(InitAt(s, start, size))
  {
    InitChanges(s, start, size);
    if size > 2 * H && start !in s.free {
      var j := InitIndex(s, start, 0);
      ValidAnchored(s);
      InitIndexAt(s, start);
      assert Fits(s, start, size, j);
      GrownValid(s, InitAt(s, start, size), start, size, j);
    }
  }

  /** The aligned arena is ignored, or it lies in the lower half of the
      address space, above NULL, apart from every block or starting at a
      node. */
  ghost predicate Placeable(s: PoolState, pstart: nat, pend: nat)
    requires Headed(s) && pstart < WORD && pend < WORD
  {
    var start := Aligned(pstart);
    var size := Sub(Aligned(pend), start);
    size > 2 * H ==> 0 < start && start + size <= FLAG && (Apart(s, start, size) || start in s.free)
  }

  /** `palloc_init(pstart, pend)` keeps the pool valid when the aligned
      arena is ignored or lies in the lower half of the address space apart
      from every block. */
  lemma InitValid(s: PoolState, pstart: nat, pend: nat)
    requires Valid(s) && pstart < WORD && pend < WORD && Placeable(s, pstart, pend)
    ensures Valid(Init(s, pstart, pend))
  {
    InitValidAt(s, Aligned(pstart), Sub(Aligned(pend), Aligned(pstart)));
  }

  /** The static initialisers describe a valid pool with no arena. */
  lemma EmptyValid()
    ensures Valid(Empty()) && Empty().free == [] && Empty().blocks == {}
  {
  }

  /** The first arena of an empty pool becomes one free block followed by
      its sentinel; both are the whole free list. */
  lemma InitFirst(start: nat, size: nat)
    requires size > 2 * H && size < WORD
    ensures var t := InitAt(Empty(), start, size);
            var e := Sentinel(start, size);
            && t.free == [start, e] && t.anchor == start && t.last == e
            && t.heap == map[start := Link(e, size - H), e := Link(NULL, 0)]
            && t.freeSize == size - H && t.poolSize == size && t.blocks == {start, e}
  {
    InitGrows(Empty(), start, size, 0);
    var t := InitAt(Empty(), start, size);
    var e := Sentinel(start, size);
    assert t.heap.Keys == {start, e};
  }

  /** Lines 189-191 round the end of the arena up, so the sentinel's header
      can reach past `pend`: an arena given as [0x1000, 0x1021) gets its
      sentinel at 0x101C, whose header ends at 0x1024. */
  lemma InitRoundsEndUp()
    ensures var t := Init(Empty(), 0x1000, 0x1021);
            0x101C in t.blocks && t.heap[0x101C] == Link(NULL, 0) && 0x101C + H > 0x1021
  {
    assert Aligned(0x1000) == 0x1000 && Aligned(0x1021) == 0x1024;
    InitFirst(0x1000, 0x24);
  }

  /** `end - start` is size_t arithmetic: an arena given with `pend` below
      `pstart` becomes one of nearly 4 GiB, whose size word carries the
      allocated flag. */
  lemma InitWrapsBackwards()
    ensures var t := Init(Empty(), 0x2000, 0x1000);
            && t.poolSize == 0xFFFF_F000 && 0x2000 in t.heap && Allocated(t.heap[0x2000])
            && t.last == 0xFF8 && t.heap[0x2000].next == 0xFF8 && t.heap[0xFF8] == Link(NULL, 0)
  {
    assert Aligned(0x2000) == 0x2000 && Aligned(0x1000) == 0x1000;
    InitFirst(0x2000, 0xFFFF_F000);
  }
}
