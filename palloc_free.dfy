/**
 * What pfree does to a valid pool: the no-op cases, the reinsertion in
 * address order with the merges of `_insert_link`, the accounting of
 * `_free_size`, and that the pool stays valid.
 */
module PallocFree {
  import opened PallocSpec
  import opened PallocLists

  /** The node before position j ends where the block at `a` starts. */
  ghost predicate MergesBack(s: PoolState, a: nat, j: nat)
    requires j < |s.free| && (j > 0 ==> s.free[j - 1] in s.heap)
  {
    j > 0 && s.free[j - 1] + s.heap[s.free[j - 1]].flagNsize == a
  }

  /** The block that holds `a` once merged backwards: its header and size. */
  ghost function MergedAt(s: PoolState, a: nat, j: nat): nat
    requires j < |s.free| && (j > 0 ==> s.free[j - 1] in s.heap)
  {
    if MergesBack(s, a, j) then s.free[j - 1] else a
  }

  ghost function MergedSize(s: PoolState, a: nat, j: nat): nat
    requires a in s.heap && j < |s.free| && (j > 0 ==> s.free[j - 1] in s.heap)
  {
    if MergesBack(s, a, j) then s.heap[s.free[j - 1]].flagNsize + Size(s.heap[a]) else Size(s.heap[a])
  }

  /** That block ends where the node at j starts, and the node at j is not
      the final sentinel. */
  ghost predicate MergesForth(s: PoolState, a: nat, j: nat)
    requires a in s.heap && j < |s.free| && (j > 0 ==> s.free[j - 1] in s.heap)
  {
    MergedAt(s, a, j) + MergedSize(s, a, j) == s.free[j] && s.free[j] != s.last
  }

  /** The state pfree leaves after freeing the live block at `a`, header by
      header, where j is the position of the first node above `a`: the block
      merges with the node before it when that ends at `a`, and with the
      node at j when the block ends there and that node is not the final
      sentinel. */
  ghost predicate Freed(s: PoolState, t: PoolState, a: nat, j: nat)
    requires a in s.heap && AtNode(s, j)
  {
    && Recounted(s, t, a)
    && Reblocked(s, t, a, j)
    && Relisted(s, t, a, j)
    && Reheaded(s, t, a, j)
  }

  /** The globals other than the list: the block's size counted free and
      the call counted. */
  ghost predicate Recounted(s: PoolState, t: PoolState, a: nat)
    requires a in s.heap
  {
    && t.last == s.last && t.freeSize == s.freeSize + Size(s.heap[a])
    && t.poolSize == s.poolSize && t.numAlloc == s.numAlloc && t.numFree == Add(s.numFree, 1)
  }

  /** The freed block stops being a block of its own when it joins the node
      before it, and so does the node after it when it joins that. */
  ghost predicate Reblocked(s: PoolState, t: PoolState, a: nat, j: nat)
    requires a in s.heap && AtNode(s, j)
  {
    t.blocks == s.blocks - (if MergesBack(s, a, j) then {a} else {})
                         - (if MergesForth(s, a, j) && Size(s.heap[s.free[j]]) > 0 then {s.free[j]} else {})
  }

  /** The free list after pfree: the freed block enters it at j unless it
      joins the node before, and takes the place of the node at j when it
      joins that. */
  ghost predicate Relisted(s: PoolState, t: PoolState, a: nat, j: nat)
    requires a in s.heap && AtNode(s, j)
  {
    && t.free == (if MergesBack(s, a, j) then (if MergesForth(s, a, j) then Remove(s.free, j) else s.free)
                  else if MergesForth(s, a, j) then s.free[j := a] else Insert(s.free, j, a))
    && t.anchor == (if j == 0 then a else s.anchor)
  }

  /** The headers after pfree: the merged header, the freed one, the `next`
      of the node before, and no other. */
  ghost predicate Reheaded(s: PoolState, t: PoolState, a: nat, j: nat)
    requires a in s.heap && AtNode(s, j)
  {
    var nx: nat := s.free[j];
    var fa := Size(s.heap[a]);
    var back := MergesBack(s, a, j);
    var p: nat := MergedAt(s, a, j);
    var psize := MergedSize(s, a, j);
    && t.heap.Keys == s.heap.Keys
    && t.heap[p] == (if MergesForth(s, a, j) then Link(s.heap[nx].next, psize + s.heap[nx].flagNsize) else Link(nx, psize))
    && (back ==> t.heap[a] == Link(NULL, fa))
    && (!back && j > 0 ==> t.heap[s.free[j - 1]] == s.heap[s.free[j - 1]].(next := a))
    && (forall x :: x in s.heap && x != a && (j > 0 ==> x != s.free[j - 1]) ==> t.heap[x] == s.heap[x])
  }

  /** What `_insert_link` relies on when pfree hands it the block at `a`:
      the free list is ordered and lies in the heap above and below `a`, and
      the sizes involved leave no room for a size_t to wrap. */
  ghost predicate Freeable(s: PoolState, a: nat)
  {
    && InsertReady(s, a) && Increasing(s.free) && a !in s.free
    && Allocated(s.heap[a]) && s.heap[a].next == NULL
    && a + Size(s.heap[a]) <= FLAG && s.freeSize + Size(s.heap[a]) < WORD
    && (forall k :: 0 <= k < |s.free| ==> s.free[k] + s.heap[s.free[k]].flagNsize <= FLAG)
  }

  /** The facts about the neighbourhood of `a` that each case of
      `_insert_link` uses, with j the position of the first node above `a`. */
  ghost predicate Around(s: PoolState, a: nat, j: nat)
  {
    && a in s.heap && InsertReady(Cleared(s, a), a) && j < |s.free| && InsertIndex(Cleared(s, a), a, 0) == j
    && s.free[j] in s.heap && a < s.free[j]
    && (j > 0 ==> s.free[j - 1] in s.heap && s.free[j - 1] < a
                  && s.free[j - 1] + s.heap[s.free[j - 1]].flagNsize <= FLAG)
    && Allocated(s.heap[a]) && s.heap[a].next == NULL
    && a + Size(s.heap[a]) <= FLAG && s.freeSize + Size(s.heap[a]) < WORD
    && s.free[j] + s.heap[s.free[j]].flagNsize <= FLAG
  }

  lemma InsertFreed(s: PoolState, a: nat)
    requires Freeable(s, a)
    ensures InsertReady(Cleared(s, a), a)
    ensures var j := InsertIndex(s, a, 0);
            Freed(s, Release(s, a), a, j)
  {
    var s1 := Cleared(s, a);
    var j := InsertIndex(s, a, 0);
    InsertIndexSame(s, s1, a, 0);
    assert Around(s, a, j);
    if MergesBack(s, a, j) {
      if MergesForth(s, a, j) {
        FreedBackForth(s, a, j);
      } else {
        FreedBack(s, a, j);
      }
    } else {
      if MergesForth(s, a, j) {
        FreedForth(s, a, j);
      } else {
        FreedAlone(s, a, j);
      }
    }
  }

  lemma FreedBackForth(s: PoolState, a: nat, j: nat)
    requires Around(s, a, j) && MergesBack(s, a, j) && MergesForth(s, a, j)
    ensures Freed(s, Release(s, a), a, j)
  {
    var s1 := Cleared(s, a);
    assert s1.heap[a] == Link(NULL, Size(s.heap[a]));
    if j > 0 {
      assert s1.heap[s.free[j - 1]] == s.heap[s.free[j - 1]];
    }
  }

  lemma FreedBack(s: PoolState, a: nat, j: nat)
    requires Around(s, a, j) && MergesBack(s, a, j) && !MergesForth(s, a, j)
    ensures Freed(s, Release(s, a), a, j)
  {
    var s1 := Cleared(s, a);
    assert s1.heap[a] == Link(NULL, Size(s.heap[a]));
    if j > 0 {
      assert s1.heap[s.free[j - 1]] == s.heap[s.free[j - 1]];
    }
  }

  lemma FreedForth(s: PoolState, a: nat, j: nat)
    requires Around(s, a, j) && !MergesBack(s, a, j) && MergesForth(s, a, j)
    ensures Freed(s, Release(s, a), a, j)
  {
    var s1 := Cleared(s, a);
    assert s1.heap[a] == Link(NULL, Size(s.heap[a]));
    if j > 0 {
      assert s1.heap[s.free[j - 1]] == s.heap[s.free[j - 1]];
    }
  }

  lemma FreedAlone(s: PoolState, a: nat, j: nat)
    requires Around(s, a, j) && !MergesBack(s, a, j) && !MergesForth(s, a, j)
    ensures Freed(s, Release(s, a), a, j)
  {
    var s1 := Cleared(s, a);
    var fa := Size(s.heap[a]);
    var nx: nat := s.free[j];
    assert s1.heap[a] == Link(NULL, fa);
    if j > 0 {
      assert s1.heap[s.free[j - 1]] == s.heap[s.free[j - 1]];
    }
  }

  /** The walk of `_insert_link` depends on the free list only. */
  lemma {:induction false} InsertIndexSame(s: PoolState, s1: PoolState, a: nat, j: nat)
    requires InsertReady(s, a) && InsertReady(s1, a) && s1.free == s.free && j < |s.free|
    ensures InsertIndex(s1, a, j) == InsertIndex(s, a, j)
    decreases |s.free| - j
  {
    if s.free[j] < a {
      InsertIndexSame(s, s1, a, j + 1);
    }
  }

  // ----- from a valid pool -----

  /** The facts about the block at `a` and its neighbours on the free list,
      j the position of the first node above `a`, that the validity of the
      state pfree leaves rests on. */
  ghost predicate Frees(s: PoolState, a: nat, j: nat) {
    && AtNode(s, j) && a in s.heap && a in s.blocks && 0 < a && a < s.free[j]
    && Allocated(s.heap[a]) && s.heap[a].next == NULL && a !in s.free
    && 0 < Size(s.heap[a]) && a + Size(s.heap[a]) <= s.free[j]
    && s.free[j] in s.blocks && !Allocated(s.heap[s.free[j]])
    && s.free[j] + Size(s.heap[s.free[j]]) <= FLAG
    && s.free[|s.free| - 1] == s.last
    && (j > 0 ==> && s.free[j - 1] in s.blocks && 0 < s.free[j - 1] < a
                  && !Allocated(s.heap[s.free[j - 1]])
                  && s.free[j - 1] + Extent(s.heap[s.free[j - 1]]) <= a)
  }

  /** A live block of a valid pool can be handed to `_insert_link`. */
  lemma LiveFrees(s: PoolState, a: nat)
    requires Valid(s) && a in s.heap && Allocated(s.heap[a])
    ensures InsertReady(s, a) && Freeable(s, a)
    ensures Frees(s, a, InsertIndex(s, a, 0))
  {
    ReadyToInsert(s, a);
    FreeBound(s);
    assert a in s.blocks;
    var j := InsertIndex(s, a, 0);
    var nx: nat := s.free[j];
    assert nx in s.blocks && nx != a;
    assert a + Extent(s.heap[a]) <= nx;
    forall k | 0 <= k < |s.free| ensures s.free[k] + s.heap[s.free[k]].flagNsize <= FLAG {
      assert s.free[k] in s.blocks;
    }
    if j > 0 {
      assert s.free[j - 1] in s.blocks;
    }
  }

  /** Where the merged block starts and how large it is. */
  lemma MergeFacts(s: PoolState, a: nat, j: nat)
    requires Frees(s, a, j)
    ensures var p := MergedAt(s, a, j);
            var psize := MergedSize(s, a, j);
            && p in s.blocks && p in s.heap && 0 < p <= a && p + psize == a + Size(s.heap[a])
            && psize < FLAG
            && (!MergesBack(s, a, j) ==> p == a && psize == Size(s.heap[a]))
            && (MergesBack(s, a, j) ==> && j > 0 && p == s.free[j - 1] && !Allocated(s.heap[p])
                                        && p + Size(s.heap[p]) == a && Size(s.heap[p]) > 0)
            && (MergesForth(s, a, j) <==> a + Size(s.heap[a]) == s.free[j] && s.free[j] != s.last)
  {
    if MergesBack(s, a, j) {
      assert s.free[j - 1] in s.blocks;
    }
  }

  /** pfree writes size_t header words, and the only flagged headers left
      are those of the other live blocks. */
  lemma FreedWords(s: PoolState, t: PoolState, a: nat, j: nat)
    requires Headed(s) && Words(s) && Frees(s, a, j) && Reblocked(s, t, a, j) && Reheaded(s, t, a, j)
    ensures Headed(t) && Words(t)
  {
    MergeFacts(s, a, j);
    var nx: nat := s.free[j];
    var p: nat := MergedAt(s, a, j);
    forall x | x in t.heap ensures t.heap[x].flagNsize < WORD && (Allocated(t.heap[x]) ==>
        x in t.blocks && t.heap[x].next == NULL && Size(t.heap[x]) > 0) {
      if x == p || x == a {
      } else if j > 0 && x == s.free[j - 1] {
      } else {
        assert t.heap[x] == s.heap[x];
        assert Allocated(t.heap[x]) ==> x != nx;
      }
    }
  }

  /** Where the block pfree leaves at the merged header ends. */
  ghost function MergedEnd(s: PoolState, a: nat, j: nat): nat
    requires a in s.heap && AtNode(s, j)
  {
    if MergesForth(s, a, j) then s.free[j] + Size(s.heap[s.free[j]]) else a + Size(s.heap[a])
  }

  /** The headers of the blocks after pfree: the merged one reaches
      MergedEnd, and the others keep their size words. */
  lemma FreedHeaders(s: PoolState, t: PoolState, a: nat, j: nat)
    requires Headed(s) && Frees(s, a, j) && Reblocked(s, t, a, j) && Reheaded(s, t, a, j)
    ensures var p := MergedAt(s, a, j);
            && p in t.blocks && p in t.heap && !Allocated(t.heap[p])
            && p + Size(t.heap[p]) == MergedEnd(s, a, j) && MergedEnd(s, a, j) <= FLAG
            && t.blocks <= s.blocks
            && (forall b :: b in t.blocks && b != p ==>
                  b != a && b in t.heap && t.heap[b].flagNsize == s.heap[b].flagNsize
                  && Size(t.heap[b]) == Size(s.heap[b]))
  {
    MergeFacts(s, a, j);
    var p: nat := MergedAt(s, a, j);
    forall b: nat | b in t.blocks && b != p
      ensures b != a && b in t.heap && t.heap[b].flagNsize == s.heap[b].flagNsize
              && Size(t.heap[b]) == Size(s.heap[b])
    {
      assert b in s.blocks;
    }
  }

  /** The blocks after pfree start above 0 and end by FLAG. */
  lemma FreedBounded(s: PoolState, t: PoolState, a: nat, j: nat)
    requires Headed(s) && Tiled(s) && Frees(s, a, j) && Reblocked(s, t, a, j) && Reheaded(s, t, a, j) && Headed(t)
    ensures forall b :: b in t.blocks ==> 0 < b && b + Extent(t.heap[b]) <= FLAG
  {
    FreedHeaders(s, t, a, j);
    MergeFacts(s, a, j);
    var p: nat := MergedAt(s, a, j);
    forall b: nat | b in t.blocks ensures 0 < b && b + Extent(t.heap[b]) <= FLAG {
      if b != p {
        assert b in s.blocks && Extent(t.heap[b]) == Extent(s.heap[b]);
      }
    }
  }

  /** The blocks after pfree do not overlap. */
  lemma FreedApart(s: PoolState, t: PoolState, a: nat, j: nat)
    requires Headed(s) && Tiled(s) && Frees(s, a, j) && Reblocked(s, t, a, j) && Reheaded(s, t, a, j) && Headed(t)
    ensures forall b, c :: b in t.blocks && c in t.blocks && b < c ==> b + Extent(t.heap[b]) <= c
  {
    FreedHeaders(s, t, a, j);
    MergeFacts(s, a, j);
    var p: nat := MergedAt(s, a, j);
    var nx: nat := s.free[j];
    var fa := Size(s.heap[a]);
    forall b: nat, c: nat | b in t.blocks && c in t.blocks && b < c ensures b + Extent(t.heap[b]) <= c {
      if b == p {
        assert c in s.blocks && c != a;
        if p < a {
          assert p + Extent(s.heap[p]) <= c;
        }
        assert a + fa <= c;
        if MergesForth(s, a, j) && Size(s.heap[nx]) > 0 {
          assert c != nx && nx + Extent(s.heap[nx]) <= c;
        }
      } else {
        assert b in s.blocks && c in s.blocks && Extent(t.heap[b]) == Extent(s.heap[b]);
      }
    }
  }

  /** Every block of positive size after pfree is followed by another: the
      merged block at p by the block at e, and the others as before. */
  lemma FreedFollowed(s: PoolState, t: PoolState, a: nat, p: nat, e: nat)
    requires Headed(s) && Headed(t) && p in t.blocks && p + Size(t.heap[p]) == e && e in t.blocks && t.blocks <= s.blocks
    requires forall b :: b in t.blocks && b != p ==>
               b != a && b in t.heap && t.heap[b].flagNsize == s.heap[b].flagNsize
               && Size(t.heap[b]) == Size(s.heap[b])
    requires forall b :: b in s.blocks && b != a && b != p && Size(s.heap[b]) > 0 ==>
               b + Size(s.heap[b]) in t.blocks
    ensures forall b :: b in t.blocks && Size(t.heap[b]) > 0 ==> b + Size(t.heap[b]) in t.blocks
  {
    forall b: nat | b in t.blocks && Size(t.heap[b]) > 0 ensures b + Size(t.heap[b]) in t.blocks {
      if b != p {
        assert b in s.blocks && Size(t.heap[b]) == Size(s.heap[b]);
        assert b + Size(s.heap[b]) in t.blocks;
      }
    }
  }

  /** The blocks after pfree tile the arenas. */
  lemma FreedTiled(s: PoolState, t: PoolState, a: nat, j: nat)
    requires Headed(s) && Tiled(s) && Frees(s, a, j) && Reblocked(s, t, a, j) && Reheaded(s, t, a, j) && Headed(t)
    ensures Tiled(t)
  {
    FreedHeaders(s, t, a, j);
    FreedBounded(s, t, a, j);
    FreedApart(s, t, a, j);
    FollowedMerged(s, t, a, j);
    FollowedOthers(s, t, a, j);
    FreedFollowed(s, t, a, MergedAt(s, a, j), MergedEnd(s, a, j));
  }

  /** A block pfree leaves as it was ends neither at the freed block nor at
      a node the merge swallowed. */
  lemma FollowedOthers(s: PoolState, t: PoolState, a: nat, j: nat)
    requires Headed(s) && Tiled(s) && Frees(s, a, j) && Reblocked(s, t, a, j)
    ensures forall b :: b in s.blocks && b != a && b != MergedAt(s, a, j) && Size(s.heap[b]) > 0 ==>
              b + Size(s.heap[b]) in t.blocks
  {
    MergeFacts(s, a, j);
    EndsApart(s, a);
    if MergesBack(s, a, j) {
      EndsApart(s, MergedAt(s, a, j));
    }
  }

  /** No other block of positive size ends where the block at c ends. */
  lemma EndsApart(s: PoolState, c: nat)
    requires Headed(s) && Tiled(s) && c in s.blocks && Size(s.heap[c]) > 0
    ensures forall b :: b in s.blocks && b != c && Size(s.heap[b]) > 0 ==>
              b + Size(s.heap[b]) != c + Size(s.heap[c])
  {
    forall b: nat | b in s.blocks && b != c && Size(s.heap[b]) > 0
      ensures b + Size(s.heap[b]) != c + Size(s.heap[c])
    {
      if b < c {
        assert b + Extent(s.heap[b]) <= c;
      } else {
        assert c + Extent(s.heap[c]) <= b;
      }
    }
  }

  /** The merged block ends at a block pfree keeps. */
  lemma FollowedMerged(s: PoolState, t: PoolState, a: nat, j: nat)
    requires Headed(s) && Tiled(s) && Frees(s, a, j) && Reblocked(s, t, a, j)
    ensures MergedEnd(s, a, j) in t.blocks
  {
    MergeFacts(s, a, j);
    var nx: nat := s.free[j];
    if MergesForth(s, a, j) && Size(s.heap[nx]) > 0 {
      assert nx + Size(s.heap[nx]) in s.blocks;
    } else {
      assert a + Size(s.heap[a]) in s.blocks;
    }
  }

  // ----- the free list after pfree -----

  /** The free list stays in address order; it gains the freed block unless
      that joined the node before, and loses the node at j when the block
      joined that. */
  lemma FreedOrder(s: PoolState, t: PoolState, a: nat, j: nat)
    requires Increasing(s.free) && Frees(s, a, j) && Relisted(s, t, a, j)
    ensures Increasing(t.free)
    ensures forall x :: x in t.free <==>
              (x in s.free && !(MergesForth(s, a, j) && x == s.free[j])) || (x == a && !MergesBack(s, a, j))
    ensures MergedAt(s, a, j) in t.free
  {
    if MergesBack(s, a, j) {
      assert s.free[j - 1] in s.free && s.free[j - 1] != s.free[j];
      if MergesForth(s, a, j) {
        RemoveOrdered(s.free, j);
      }
    } else if MergesForth(s, a, j) {
      ReplaceOrdered(s.free, j, a);
    } else {
      InsertOrdered(s.free, j, a);
    }
  }

  /** The blocks pfree keeps: all but the freed one and the node it
      absorbed. */
  lemma FreedKept(s: PoolState, t: PoolState, a: nat, j: nat)
    requires Frees(s, a, j) && Reblocked(s, t, a, j)
    ensures forall b :: b in s.blocks && b != a && !(MergesForth(s, a, j) && b == s.free[j] && Size(s.heap[s.free[j]]) > 0) ==>
              b in t.blocks
    ensures MergesForth(s, a, j) && Size(s.heap[s.free[j]]) > 0 ==> s.free[j] !in t.blocks
  {
  }

  /** The free list after pfree holds exactly the blocks without the flag,
      of positive size or not, in address order. */
  lemma FreedListed(s: PoolState, t: PoolState, a: nat, j: nat)
    requires Headed(s) && Listed(s) && Frees(s, a, j) && Headed(t)
    requires Reblocked(s, t, a, j) && Relisted(s, t, a, j) && Reheaded(s, t, a, j)
    ensures Listed(t)
  {
    FreedHeaders(s, t, a, j);
    FreedOrder(s, t, a, j);
    FreedKept(s, t, a, j);
    MergeFacts(s, a, j);
    ListedGlue(s, t, a, MergedAt(s, a, j), s.free[j], MergesBack(s, a, j), MergesForth(s, a, j));
  }

  /** What Listed asks of the free list after pfree, from the shape of the
      list and of the headers. */
  lemma ListedGlue(s: PoolState, t: PoolState, a: nat, p: nat, nx: nat, back: bool, forth: bool)
    requires Headed(s) && Headed(t) && t.blocks <= s.blocks && nx in s.heap && (!back ==> p == a)
    requires p in t.blocks && p in t.heap && !Allocated(t.heap[p]) && p in t.free && a !in s.free
    requires forall b :: b in t.blocks && b != p ==>
               b != a && b in t.heap && t.heap[b].flagNsize == s.heap[b].flagNsize
               && Size(t.heap[b]) == Size(s.heap[b])
    requires forall x :: x in t.free <==> (x in s.free && !(forth && x == nx)) || (x == a && !back)
    requires forall i :: 0 <= i < |s.free| ==> s.free[i] in s.blocks && !Allocated(s.heap[s.free[i]])
    requires forall b :: b in s.blocks && !Allocated(s.heap[b]) && Size(s.heap[b]) > 0 ==> b in s.free
    requires forall b :: b in s.blocks && b != a && !(forth && b == nx && Size(s.heap[nx]) > 0) ==> b in t.blocks
    requires forth && Size(s.heap[nx]) > 0 ==> nx !in t.blocks
    ensures forall i :: 0 <= i < |t.free| ==> t.free[i] in t.blocks && !Allocated(t.heap[t.free[i]])
    ensures forall b :: b in t.blocks && !Allocated(t.heap[b]) && Size(t.heap[b]) > 0 ==> b in t.free
  {
    forall i | 0 <= i < |t.free| ensures t.free[i] in t.blocks && !Allocated(t.heap[t.free[i]]) {
      var x := t.free[i];
      assert x in t.free;
      if x != p {
        var k :| 0 <= k < |s.free| && s.free[k] == x;
        assert x in s.blocks && x != a;
      }
    }
    forall b | b in t.blocks && !Allocated(t.heap[b]) && Size(t.heap[b]) > 0 ensures b in t.free {
      if b != p {
        assert b in s.blocks && b in s.free;
      }
    }
  }

  // ----- the chain after pfree -----

  /** The anchor and the `next` words chain the free list after pfree. */
  lemma FreedLinked(s: PoolState, t: PoolState, a: nat, j: nat)
    requires InHeap(s.heap, s.free) && Linked(s) && Increasing(s.free) && Frees(s, a, j)
    requires Relisted(s, t, a, j) && Reheaded(s, t, a, j)
    ensures InHeap(t.heap, t.free) && Linked(t)
  {
    if MergesBack(s, a, j) {
      if MergesForth(s, a, j) {
        LinkedBackForth(s, t, a, j);
      } else {
        LinkedBack(s, t, a, j);
      }
    } else if MergesForth(s, a, j) {
      LinkedForth(s, t, a, j);
    } else {
      LinkedAlone(s, t, a, j);
    }
  }

  /** The freed block enters the chain between the node before and the
      node at j. */
  lemma LinkedAlone(s: PoolState, t: PoolState, a: nat, j: nat)
    requires InHeap(s.heap, s.free) && Linked(s) && Increasing(s.free) && Frees(s, a, j)
    requires Relisted(s, t, a, j) && Reheaded(s, t, a, j)
    requires !MergesBack(s, a, j) && !MergesForth(s, a, j)
    ensures InHeap(t.heap, t.free) && Linked(t)
  {
    MergeFacts(s, a, j);
    forall k | 0 <= k < |t.free| ensures t.free[k] in t.heap && t.heap[t.free[k]].next == Succ(t.free, k) {
      if k < j {
        var c := s.free[k];
        assert t.free[k] == c && c < a;
        if k < j - 1 {
          assert c != s.free[j - 1] && t.heap[c] == s.heap[c] && t.free[k + 1] == s.free[k + 1];
        }
      } else if k > j {
        var c := s.free[k - 1];
        assert t.free[k] == c && c != a && (j > 0 ==> c != s.free[j - 1]);
        assert t.heap[c] == s.heap[c];
        assert k + 1 < |t.free| ==> t.free[k + 1] == s.free[k];
      } else {
        assert t.free[j + 1] == s.free[j];
      }
    }
  }

  /** The freed block takes the place of the node at j in the chain. */
  lemma LinkedForth(s: PoolState, t: PoolState, a: nat, j: nat)
    requires InHeap(s.heap, s.free) && Linked(s) && Increasing(s.free) && Frees(s, a, j)
    requires Relisted(s, t, a, j) && Reheaded(s, t, a, j)
    requires !MergesBack(s, a, j) && MergesForth(s, a, j)
    ensures InHeap(t.heap, t.free) && Linked(t)
  {
    MergeFacts(s, a, j);
    forall k | 0 <= k < |t.free| ensures t.free[k] in t.heap && t.heap[t.free[k]].next == Succ(t.free, k) {
      if k != j && k != j - 1 {
        var c := s.free[k];
        assert t.free[k] == c && c != a && (j > 0 ==> c != s.free[j - 1]);
        assert t.heap[c] == s.heap[c];
        assert k + 1 < |t.free| ==> t.free[k + 1] == s.free[k + 1];
      }
    }
  }

  /** The node before grows over the freed block; the chain keeps its
      nodes. */
  lemma LinkedBack(s: PoolState, t: PoolState, a: nat, j: nat)
    requires InHeap(s.heap, s.free) && Linked(s) && Increasing(s.free) && Frees(s, a, j)
    requires Relisted(s, t, a, j) && Reheaded(s, t, a, j)
    requires MergesBack(s, a, j) && !MergesForth(s, a, j)
    ensures InHeap(t.heap, t.free) && Linked(t)
  {
    MergeFacts(s, a, j);
    forall k | 0 <= k < |t.free| ensures t.free[k] in t.heap && t.heap[t.free[k]].next == Succ(t.free, k) {
      if k != j - 1 {
        var c := s.free[k];
        assert c != a && c != s.free[j - 1];
        assert t.heap[c] == s.heap[c];
      }
    }
  }

  /** The node before grows over the freed block and the node at j, which
      leaves the chain. */
  lemma LinkedBackForth(s: PoolState, t: PoolState, a: nat, j: nat)
    requires InHeap(s.heap, s.free) && Linked(s) && Increasing(s.free) && Frees(s, a, j)
    requires Relisted(s, t, a, j) && Reheaded(s, t, a, j)
    requires MergesBack(s, a, j) && MergesForth(s, a, j)
    ensures InHeap(t.heap, t.free) && Linked(t)
  {
    MergeFacts(s, a, j);
    forall k | 0 <= k < |t.free| ensures t.free[k] in t.heap && t.heap[t.free[k]].next == Succ(t.free, k) {
      if k < j - 1 {
        var c := s.free[k];
        assert t.free[k] == c && c != a && c != s.free[j - 1];
        assert t.heap[c] == s.heap[c] && t.free[k + 1] == s.free[k + 1];
      } else if k >= j {
        var c := s.free[k + 1];
        assert t.free[k] == c && c != a && c != s.free[j - 1];
        assert t.heap[c] == s.heap[c];
        assert k + 1 < |t.free| ==> t.free[k + 1] == s.free[k + 2];
      } else {
        assert t.free[j - 1] == s.free[j - 1];
        assert j < |t.free| ==> t.free[j] == s.free[j + 1];
      }
    }
  }

  // ----- the end sentinel and the free total after pfree -----

  /** The end sentinel stays the last node and the highest block. */
  lemma FreedEnded(s: PoolState, t: PoolState, a: nat, j: nat)
    requires Headed(s) && Ended(s) && Increasing(s.free) && Frees(s, a, j)
    requires Reblocked(s, t, a, j) && Relisted(s, t, a, j) && Reheaded(s, t, a, j) && Headed(t)
    requires t.last == s.last
    ensures Ended(t)
  {
    MergeFacts(s, a, j);
    assert MergesForth(s, a, j) ==> j < |s.free| - 1;
    LastKept(s.free, t.free, j, a, MergesBack(s, a, j), MergesForth(s, a, j));
    var last: nat := s.last;
    assert s.free[|s.free| - 1] == last && s.free[j] <= last && Size(s.heap[last]) == 0;
    assert j > 0 ==> s.free[j - 1] < a;
    assert t.heap[last] == s.heap[last];
    FreedKept(s, t, a, j);
    assert last in s.blocks && last != a && (MergesForth(s, a, j) ==> s.free[j] != last);
    assert t.blocks <= s.blocks;
  }

  /** The final sentinel stays at the end of the free list: no block merges
      with it. */
  lemma LastKept(xs: seq<nat>, ys: seq<nat>, j: nat, a: nat, back: bool, forth: bool)
    requires j < |xs| && (forth ==> j < |xs| - 1)
    requires ys == (if back then (if forth then Remove(xs, j) else xs)
                    else if forth then xs[j := a] else Insert(xs, j, a))
    ensures |ys| > 0 && ys[|ys| - 1] == xs[|xs| - 1]
  {
    var n := |xs|;
    if back && forth {
      assert ys[n - 2] == xs[n - 1];
    } else if !back && !forth {
      assert ys[n] == xs[n - 1];
    }
  }

  /** The free total grows by the size of the freed block. */
  lemma FreedSum(s: PoolState, t: PoolState, a: nat, j: nat)
    requires InHeap(s.heap, s.free) && Increasing(s.free) && Frees(s, a, j)
    requires Relisted(s, t, a, j) && Reheaded(s, t, a, j)
    ensures InHeap(t.heap, t.free)
    ensures SumSizes(t.heap, t.free) == SumSizes(s.heap, s.free) + Size(s.heap[a])
  {
    if MergesBack(s, a, j) {
      if MergesForth(s, a, j) {
        SumBackForth(s, t, a, j);
      } else {
        SumBack(s, t, a, j);
      }
    } else if MergesForth(s, a, j) {
      SumForth(s, t, a, j);
    } else {
      SumAlone(s, t, a, j);
    }
  }

  /** Without a merge back, every node keeps its size in the new heap. */
  lemma SizesKept(s: PoolState, t: PoolState, a: nat, j: nat)
    requires InHeap(s.heap, s.free) && Increasing(s.free) && Frees(s, a, j)
    requires Relisted(s, t, a, j) && Reheaded(s, t, a, j)
    requires !MergesBack(s, a, j)
    ensures InHeap(t.heap, s.free) && SameSizes(s.heap, t.heap, s.free)
    ensures SumSizes(t.heap, s.free) == SumSizes(s.heap, s.free)
  {
    forall k | 0 <= k < |s.free| ensures s.free[k] in t.heap && Size(t.heap[s.free[k]]) == Size(s.heap[s.free[k]]) {
      assert s.free[k] != a;
    }
    SumSame(s.heap, t.heap, s.free);
  }

  /** With a merge back, every node but the one before keeps its size. */
  lemma SizesBack(s: PoolState, t: PoolState, a: nat, j: nat)
    requires InHeap(s.heap, s.free) && Increasing(s.free) && Frees(s, a, j)
    requires Relisted(s, t, a, j) && Reheaded(s, t, a, j)
    requires MergesBack(s, a, j)
    ensures InHeap(t.heap, s.free)
    ensures SumSizes(t.heap, s.free) + Size(s.heap[s.free[j - 1]]) == SumSizes(s.heap, s.free) + Size(t.heap[s.free[j - 1]])
  {
    forall k | 0 <= k < |s.free| && k != j - 1 ensures s.free[k] in t.heap && Size(t.heap[s.free[k]]) == Size(s.heap[s.free[k]]) {
      assert s.free[k] != a && s.free[k] != s.free[j - 1];
    }
    SumExcept(s.heap, t.heap, s.free, j - 1);
  }

  lemma SumAlone(s: PoolState, t: PoolState, a: nat, j: nat)
    requires InHeap(s.heap, s.free) && Increasing(s.free) && Frees(s, a, j)
    requires Relisted(s, t, a, j) && Reheaded(s, t, a, j)
    requires !MergesBack(s, a, j) && !MergesForth(s, a, j)
    ensures InHeap(t.heap, t.free)
    ensures SumSizes(t.heap, t.free) == SumSizes(s.heap, s.free) + Size(s.heap[a])
  {
    MergeFacts(s, a, j);
    SizesKept(s, t, a, j);
    SumInsert(t.heap, s.free, j, a);
  }

  lemma SumForth(s: PoolState, t: PoolState, a: nat, j: nat)
    requires InHeap(s.heap, s.free) && Increasing(s.free) && Frees(s, a, j)
    requires Relisted(s, t, a, j) && Reheaded(s, t, a, j)
    requires !MergesBack(s, a, j) && MergesForth(s, a, j)
    ensures InHeap(t.heap, t.free)
    ensures SumSizes(t.heap, t.free) == SumSizes(s.heap, s.free) + Size(s.heap[a])
  {
    MergeFacts(s, a, j);
    var nx: nat := s.free[j];
    assert t.heap[nx] == s.heap[nx];
    assert Size(t.heap[a]) == Size(s.heap[a]) + Size(s.heap[nx]);
    SizesKept(s, t, a, j);
    SumReplace(t.heap, s.free, j, a);
  }

  lemma SumBack(s: PoolState, t: PoolState, a: nat, j: nat)
    requires InHeap(s.heap, s.free) && Increasing(s.free) && Frees(s, a, j)
    requires Relisted(s, t, a, j) && Reheaded(s, t, a, j)
    requires MergesBack(s, a, j) && !MergesForth(s, a, j)
    ensures InHeap(t.heap, t.free)
    ensures SumSizes(t.heap, t.free) == SumSizes(s.heap, s.free) + Size(s.heap[a])
  {
    MergeFacts(s, a, j);
    SizesBack(s, t, a, j);
  }

  lemma SumBackForth(s: PoolState, t: PoolState, a: nat, j: nat)
    requires InHeap(s.heap, s.free) && Increasing(s.free) && Frees(s, a, j)
    requires Relisted(s, t, a, j) && Reheaded(s, t, a, j)
    requires MergesBack(s, a, j) && MergesForth(s, a, j)
    ensures InHeap(t.heap, t.free)
    ensures SumSizes(t.heap, t.free) == SumSizes(s.heap, s.free) + Size(s.heap[a])
  {
    MergeFacts(s, a, j);
    var nx: nat := s.free[j];
    var prev: nat := s.free[j - 1];
    assert t.heap[nx] == s.heap[nx];
    assert Size(t.heap[prev]) == Size(s.heap[prev]) + Size(s.heap[a]) + Size(s.heap[nx]);
    SizesBack(s, t, a, j);
    SumRemove(t.heap, s.free, j);
  }

  // ----- pfree -----

  /** Freeing the live block at `a` keeps the pool valid. */
  lemma FreedValid(s: PoolState, t: PoolState, a: nat, j: nat)
    requires Valid(s) && Frees(s, a, j) && Freed(s, t, a, j)
    ensures Valid(t)
  {
    FreeBound(s);
    FreedWords(s, t, a, j);
    FreedTiled(s, t, a, j);
    FreedListed(s, t, a, j);
    FreedLinked(s, t, a, j);
    FreedEnded(s, t, a, j);
    FreedSum(s, t, a, j);
  }

  /** The live blocks after pfree are those before it but the freed one,
      with their headers, and the freed header loses its flag. */
  lemma FreedLive(s: PoolState, t: PoolState, a: nat, j: nat)
    requires Words(s) && Frees(s, a, j) && Reblocked(s, t, a, j) && Reheaded(s, t, a, j)
    ensures a in t.heap && !Allocated(t.heap[a])
    ensures forall b :: b in s.heap && b != a && Allocated(s.heap[b]) ==> b in t.blocks && b in t.heap && t.heap[b] == s.heap[b]
    ensures forall b :: b in t.blocks && b in t.heap && Allocated(t.heap[b]) ==> b != a && b in s.blocks && b in s.heap && Allocated(s.heap[b])
  {
    MergeFacts(s, a, j);
    var nx: nat := s.free[j];
    assert !Allocated(s.heap[nx]);
    assert j > 0 ==> !Allocated(s.heap[s.free[j - 1]]);
  }

  /** pfree on NULL, or on a header whose flag is clear, leaves the pool as
      it is. */
  lemma FreeIgnores(s: PoolState, p: nat)
    requires Freeing(s) && (p == NULL || (p >= H && p - H in s.heap && !Allocated(s.heap[p - H])))
    ensures Free(s, p) == s
  {
  }

  /** pfree on a flagged header hands a live block to `_insert_link`. The
      pointer is given as `a + H` for the header `a`, which keeps the
      subtraction of line 87 out of the proofs. */
  lemma FreeReleases(s: PoolState, p: nat, a: nat)
    requires Freeing(s) && p == a + H && a in s.heap && Allocated(s.heap[a])
    ensures InsertReady(Cleared(s, a), a) && Free(s, p) == Release(s, a)
  {
    ReadyToInsert(s, a);
  }

  /** Clearing a flag leaves every link as it was. */
  lemma ClearedLinked(s: PoolState, a: nat)
    requires a in s.heap && InsertReady(Cleared(s, a), a) && Linked(s)
    ensures Linked(Cleared(s, a))
  {
    var t := Cleared(s, a);
    forall i | 0 <= i < |t.free|
      ensures t.heap[t.free[i]].next == Succ(t.free, i)
    {
      assert t.heap[t.free[i]].next == s.heap[s.free[i]].next;
    }
  }

  /** The state Release leaves for a live block is the one Freed describes. */
  lemma ReleaseFreed(s: PoolState, a: nat)
    requires Valid(s) && a in s.heap && Allocated(s.heap[a])
    ensures InsertReady(s, a) && InsertReady(Cleared(s, a), a)
    ensures var j := InsertIndex(s, a, 0);
            Frees(s, a, j) && Freed(s, Release(s, a), a, j)
  {
    LiveFrees(s, a);
    InsertFreed(s, a);
  }

  /** Releasing a live block keeps the pool valid. */
  lemma ReleaseValid(s: PoolState, a: nat)
    requires Valid(s) && a in s.heap && Allocated(s.heap[a])
    ensures InsertReady(Cleared(s, a), a) && Valid(Release(s, a))
  {
    ReleaseFreed(s, a);
    FreedValid(s, Release(s, a), a, InsertIndex(s, a, 0));
  }

  /** Releasing a live block: the block loses its flag, every other live
      block keeps its header, no block becomes live, and the totals move as
      pfree moves them. */
  lemma ReleaseLive(s: PoolState, a: nat)
    requires Valid(s) && a in s.heap && Allocated(s.heap[a])
    ensures InsertReady(Cleared(s, a), a)
    ensures var t := Release(s, a);
            && a in t.heap && !Allocated(t.heap[a])
            && t.freeSize == s.freeSize + Size(s.heap[a])
            && t.numFree == Add(s.numFree, 1) && t.numAlloc == s.numAlloc && t.poolSize == s.poolSize
            && (forall b :: b in s.heap && b != a && Allocated(s.heap[b]) ==> b in t.blocks && b in t.heap && t.heap[b] == s.heap[b])
            && (forall b :: b in t.blocks && b in t.heap && Allocated(t.heap[b]) ==> b != a && b in s.blocks && b in s.heap && Allocated(s.heap[b]))
  {
    ReleaseFreed(s, a);
    FreedLive(s, Release(s, a), a, InsertIndex(s, a, 0));
  }

  /** pfree keeps the pool valid, whatever header word it finds. */
  lemma FreeValid(s: PoolState, p: nat)
    requires Valid(s) && (p == NULL || (p >= H && p - H in s.heap))
    ensures Valid(Free(s, p))
  {
    if p == NULL {
      FreeIgnores(s, p);
    } else {
      FreeValidAt(s, p, p - H);
    }
  }

  lemma FreeValidAt(s: PoolState, p: nat, a: nat)
    requires Valid(s) && p == a + H && a in s.heap
    ensures Valid(Free(s, p))
  {
    if Allocated(s.heap[a]) {
      FreeReleases(s, p, a);
      ReleaseValid(s, a);
    } else {
      FreeIgnores(s, p);
    }
  }

  /** What pfree of the live block with header `a` does for its caller: the
      block is no longer live, every other live block is kept with its
      header, no block becomes live, `_free_size` grows by the block's size
      and `_num_free` counts the call. */
  lemma FreeLive(s: PoolState, a: nat)
    requires Valid(s) && a in s.heap && Allocated(s.heap[a])
    ensures Live(s, a + H)
    ensures var t := Free(s, a + H);
            && a in t.heap && !Allocated(t.heap[a]) && Forgets(s, t, a + H)
            && t.freeSize == s.freeSize + Size(s.heap[a])
            && t.numFree == Add(s.numFree, 1) && t.numAlloc == s.numAlloc && t.poolSize == s.poolSize
  {
    FreeReleases(s, a + H, a);
    ReleaseLive(s, a);
    LiveGlue(s, Free(s, a + H), a + H);
  }

  /** From s to t the block at p stops being live and every other live
      block stays live with its header; no block becomes live. */
  ghost predicate Forgets(s: PoolState, t: PoolState, p: nat) {
    && !Live(t, p)
    && (forall q: nat :: Live(s, q) && q != p ==> Live(t, q) && t.heap[q - H] == s.heap[q - H])
    && (forall q: nat :: Live(t, q) ==> Live(s, q) && q != p)
  }

  /** The live blocks as pointers, from the live blocks as headers. */
  lemma LiveGlue(s: PoolState, t: PoolState, p: nat)
    requires p >= H && p - H in t.heap && !Allocated(t.heap[p - H])
    requires forall b :: b in s.heap && b != p - H && Allocated(s.heap[b]) ==> b in t.blocks && b in t.heap && t.heap[b] == s.heap[b]
    requires forall b :: b in t.blocks && b in t.heap && Allocated(t.heap[b]) ==> b != p - H && b in s.blocks && b in s.heap && Allocated(s.heap[b])
    ensures Forgets(s, t, p)
  {
    forall q: nat | Live(s, q) && q != p ensures Live(t, q) && t.heap[q - H] == s.heap[q - H] {
      assert q - H != p - H;
    }
  }

  /** pfree of a live block changes the pool, and pfree of anything else
      does not: the header flag alone decides. */
  lemma FreeChanges(s: PoolState, p: nat, a: nat)
    requires Valid(s) && p == a + H && a in s.heap
    ensures Free(s, p) != s <==> Allocated(s.heap[a])
  {
    if Allocated(s.heap[a]) {
      FreeLive(s, a);
      assert Size(s.heap[a]) > 0;
    } else {
      FreeIgnores(s, p);
    }
  }

  /** A second pfree of the same pointer does nothing. */
  lemma FreeTwice(s: PoolState, p: nat, a: nat)
    requires Valid(s) && p == a + H && a in s.heap
    ensures Valid(Free(s, p)) && a in Free(s, p).heap
    ensures Free(Free(s, p), p) == Free(s, p)
  {
    FreeValidAt(s, p, a);
    if Allocated(s.heap[a]) {
      FreeLive(s, a);
    } else {
      FreeIgnores(s, p);
    }
    FreeIgnores(Free(s, p), p);
  }

  /** Lines 259-260 compare the node after the freed block with
      `_ppool_last` only: when that node is the zero-size end sentinel of a
      lower arena, the freed block grows over it by nothing, the sentinel
      leaves the free list and stays a block of the pool. */
  lemma FreedDropsSentinel(s: PoolState, t: PoolState, a: nat, j: nat)
    requires Increasing(s.free) && Frees(s, a, j) && Reblocked(s, t, a, j) && Relisted(s, t, a, j)
    requires a + Size(s.heap[a]) == s.free[j] && s.free[j] != s.last && Size(s.heap[s.free[j]]) == 0
    ensures MergesForth(s, a, j) && s.free[j] in t.blocks && s.free[j] !in t.free
  {
    MergeFacts(s, a, j);
    FreedOrder(s, t, a, j);
  }
}

