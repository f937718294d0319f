/**
 * What palloc does to a valid pool: the NULL cases, first fit, the split,
 * the accounting of `_free_size`, and that the pool stays valid.
 */
module PallocAlloc {
  import opened PallocSpec
  import opened PallocLists

  /** The state Take leaves, header by header: the node at i becomes an
      allocated block of `taken` bytes, the link before it points to what
      follows it in the list, and with a split that is a new free block at
      `a + size`. */
  ghost predicate Took(s: PoolState, t: PoolState, i: nat, size: nat)
    requires AtNode(s, i)
  {
    var a := s.free[i];
    var l := s.heap[a];
    var split := l.flagNsize - size > 2 * H;
    var taken := if split then size else l.flagNsize;
    var b := a + size;
    var succ := if split then b else l.next;
    && t.last == s.last
    && t.freeSize + taken == s.freeSize
    && t.numAlloc == Add(s.numAlloc, 1) && t.numFree == s.numFree && t.poolSize == s.poolSize
    && t.blocks == (if split then s.blocks + {b} else s.blocks)
    && t.free == (if split then s.free[i := b] else Remove(s.free, i))
    && t.anchor == (if i == 0 then succ else s.anchor)
    && t.heap.Keys == (if split then s.heap.Keys + {b} else s.heap.Keys)
    && t.heap[a] == Link(NULL, taken + FLAG)
    && (split ==> t.heap[b] == Link(l.next, l.flagNsize - size))
    && (i > 0 ==> t.heap[s.free[i - 1]] == s.heap[s.free[i - 1]].(next := succ))
    && (forall x :: x in s.heap && x != a && (split ==> x != b) && (i > 0 ==> x != s.free[i - 1]) ==> t.heap[x] == s.heap[x])
  }

  lemma TakeTook(s: PoolState, i: nat, size: nat)
    requires AtNode(s, i) && i < |s.free| - 1 && (i > 0 ==> s.free[i - 1] < s.free[i])
    requires 0 < size <= s.heap[s.free[i]].flagNsize < FLAG && s.heap[s.free[i]].flagNsize <= s.freeSize < WORD
    ensures Took(s, Take(s, i, size), i, size)
  {
  }

  /** What Alloc asks of Take: a node other than the final one, of at least
      `size` bytes, with `size` positive and below FLAG. */
  ghost predicate Takes(s: PoolState, i: nat, size: nat)
  {
    && Valid(s) && i < |s.free| - 1
    && 0 < size < FLAG && size <= Size(s.heap[s.free[i]])
  }

  lemma TookWords(s: PoolState, t: PoolState, i: nat, size: nat)
    requires Headed(s) && Words(s) && AtNode(s, i) && Took(s, t, i, size)
    requires 0 < size < FLAG && s.free[i] in s.blocks && size <= s.heap[s.free[i]].flagNsize < FLAG
    requires i > 0 ==> !Allocated(s.heap[s.free[i - 1]])
    ensures Headed(t) && Words(t)
  {
    var a := s.free[i];
    var l := s.heap[a];
    var split := l.flagNsize - size > 2 * H;
    var b := a + size;
    forall x | x in t.heap
      ensures t.heap[x].flagNsize < WORD
      ensures Allocated(t.heap[x]) ==> x in t.blocks && t.heap[x].next == NULL && Size(t.heap[x]) > 0
    {
      if x == a {
      } else if split && x == b {
      } else if i > 0 && x == s.free[i - 1] {
      } else {
        assert t.heap[x] == s.heap[x];
      }
    }
  }

  /** Sizes change only at the node taken and at the new free block. */
  lemma TookSizes(s: PoolState, t: PoolState, i: nat, size: nat)
    requires Headed(s) && Tiled(s) && AtNode(s, i) && Took(s, t, i, size)
    requires 0 < size && s.free[i] in s.blocks && size <= s.heap[s.free[i]].flagNsize == Size(s.heap[s.free[i]])
    ensures var a := s.free[i];
            var l := s.heap[a];
            && (l.flagNsize - size > 2 * H ==> a + size !in s.blocks)
            && forall c :: c in s.blocks && c != a ==> c in t.heap && t.heap[c].flagNsize == s.heap[c].flagNsize
  {
    var a := s.free[i];
    forall c | c in s.blocks && c != a ensures c in t.heap && t.heap[c].flagNsize == s.heap[c].flagNsize {
      if i > 0 && c == s.free[i - 1] {
      } else {
        assert t.heap[c] == s.heap[c];
      }
    }
  }

  /** Tiling depends on the blocks and their sizes only. */
  lemma TiledSizes(s: PoolState, t: PoolState)
    requires Headed(s) && Tiled(s) && Headed(t) && t.blocks == s.blocks
    requires forall c :: c in s.blocks ==> Size(t.heap[c]) == Size(s.heap[c])
    ensures Tiled(t)
  {
  }

  /** The block at `a` cut into one of `size` bytes and the rest. */
  ghost predicate Cut(s: PoolState, t: PoolState, a: nat, size: nat)
    requires Headed(s) && Headed(t)
  {
    && a in s.blocks && 0 < size && size + 2 * H < Size(s.heap[a])
    && t.blocks == s.blocks + {a + size}
    && (forall c :: c in s.blocks && c != a ==> Size(t.heap[c]) == Size(s.heap[c]))
    && Size(t.heap[a]) == size && Size(t.heap[a + size]) == Size(s.heap[a]) - size
  }

  lemma CutApart(s: PoolState, t: PoolState, a: nat, size: nat)
    requires Headed(s) && Tiled(s) && Headed(t) && Cut(s, t, a, size)
    ensures a + size !in s.blocks
    ensures forall c, d :: c in t.blocks && d in t.blocks && c < d ==> c + Extent(t.heap[c]) <= d
  {
    var b := a + size;
    assert b !in s.blocks by {
      assert a + Extent(s.heap[a]) > b;
    }
    forall c, d | c in t.blocks && d in t.blocks && c < d ensures c + Extent(t.heap[c]) <= d {
      if c == b {
        assert a < d && d in s.blocks;
      } else if d == b {
        assert c in s.blocks;
        if c != a {
          assert c < a;
        }
      } else {
        assert c in s.blocks && d in s.blocks;
      }
    }
  }

  lemma SplitTiled(s: PoolState, t: PoolState, a: nat, size: nat)
    requires Headed(s) && Tiled(s) && Headed(t) && Cut(s, t, a, size)
    ensures Tiled(t)
  {
    var b := a + size;
    CutApart(s, t, a, size);
    forall c | c in t.blocks ensures 0 < c && c + Extent(t.heap[c]) <= FLAG {
      if c == b {
        assert a + Extent(s.heap[a]) <= FLAG;
      }
    }
    forall c | c in t.blocks && Size(t.heap[c]) > 0 ensures c + Size(t.heap[c]) in t.blocks {
      if c == b {
        assert a + Size(s.heap[a]) in s.blocks;
      }
    }
  }

  /** The new free block at `a + size` lies between the neighbours of `a`
      in the list. */
  lemma SplitOrdered(s: PoolState, i: nat, b: nat)
    requires Headed(s) && Tiled(s) && Listed(s) && i < |s.free| - 1
    requires s.free[i] < b < s.free[i] + Size(s.heap[s.free[i]])
    ensures Increasing(s.free[i := b])
  {
    var a := s.free[i];
    var u := s.free[i := b];
    assert s.free[i + 1] in s.blocks && a in s.blocks;
    assert b < s.free[i + 1];
    forall p, q | 0 <= p < q < |u| ensures u[p] < u[q] {
      if q == i {
        assert s.free[p] < a;
      } else if p == i {
        assert s.free[i + 1] <= s.free[q];
      }
    }
  }

  /** Free blocks other than `a` stay listed when the node at i is replaced. */
  lemma ReplaceComplete(s: PoolState, t: PoolState, i: nat, b: nat)
    requires Headed(s) && Listed(s) && i < |s.free| && Headed(t)
    requires t.blocks == s.blocks + {b} && t.free == s.free[i := b]
    requires forall c :: c in s.blocks && c != s.free[i] ==> t.heap[c].flagNsize == s.heap[c].flagNsize
    requires Allocated(t.heap[s.free[i]])
    ensures forall c :: c in t.blocks && !Allocated(t.heap[c]) && Size(t.heap[c]) > 0 ==> c in t.free
  {
    forall c | c in t.blocks && !Allocated(t.heap[c]) && Size(t.heap[c]) > 0 ensures c in t.free {
      if c != b {
        assert c in s.blocks && c != s.free[i];
        var k :| 0 <= k < |s.free| && s.free[k] == c;
        assert t.free[k] == c;
      } else {
        assert t.free[i] == b;
      }
    }
  }

  lemma SplitListed(s: PoolState, t: PoolState, i: nat, size: nat)
    requires Headed(s) && Tiled(s) && Listed(s) && AtNode(s, i) && i < |s.free| - 1 && Headed(t)
    requires var a := s.free[i];
             && 0 < size && size + 2 * H < Size(s.heap[a])
             && t.blocks == s.blocks + {a + size} && t.free == s.free[i := a + size]
             && (forall c :: c in s.blocks && c != a ==> t.heap[c].flagNsize == s.heap[c].flagNsize)
             && Allocated(t.heap[a]) && t.heap[a + size].flagNsize == Size(s.heap[a]) - size
    ensures Listed(t)
  {
    var a := s.free[i];
    var b := a + size;
    SplitOrdered(s, i, b);
    forall k | 0 <= k < |t.free| ensures t.free[k] in t.blocks && !Allocated(t.heap[t.free[k]]) {
      if k != i {
        assert s.free[k] in s.blocks && s.free[k] != a;
      }
    }
    ReplaceComplete(s, t, i, b);
  }

  lemma WholeListed(s: PoolState, t: PoolState, i: nat)
    requires Headed(s) && Listed(s) && AtNode(s, i) && Headed(t)
    requires var a := s.free[i];
             && t.blocks == s.blocks && t.free == Remove(s.free, i)
             && (forall c :: c in s.blocks && c != a ==> t.heap[c].flagNsize == s.heap[c].flagNsize)
             && Allocated(t.heap[a])
    ensures Listed(t)
  {
    var a := s.free[i];
    forall k | 0 <= k < |t.free| ensures t.free[k] in t.blocks && !Allocated(t.heap[t.free[k]]) {
      var k' := if k < i then k else k + 1;
      assert t.free[k] == s.free[k'] && s.free[k'] in s.blocks && s.free[k'] != a;
    }
    forall c | c in t.blocks && !Allocated(t.heap[c]) && Size(t.heap[c]) > 0 ensures c in t.free {
      assert c != a;
      var k :| 0 <= k < |s.free| && s.free[k] == c;
      assert k != i;
      if k < i {
        assert t.free[k] == c;
      } else {
        assert t.free[k - 1] == c;
      }
    }
  }

  /** With a split, the new free block takes the place of the node in the
      chain. */
  lemma SplitLinked(s: PoolState, t: PoolState, i: nat, size: nat)
    requires AtNode(s, i) && i < |s.free| - 1 && Took(s, t, i, size)
    requires s.heap[s.free[i]].flagNsize - size > 2 * H
    requires InHeap(s.heap, s.free) && Linked(s) && Increasing(s.free) && Increasing(t.free)
    ensures InHeap(t.heap, t.free) && Linked(t)
  {
    var a := s.free[i];
    var b := a + size;
    forall k | 0 <= k < |t.free| ensures t.free[k] in t.heap && t.heap[t.free[k]].next == Succ(t.free, k) {
      if k == i {
        assert t.free[k] == b;
      } else if k == i - 1 {
        assert t.free[k] == s.free[k] && t.free[i] == b;
      } else {
        var c := s.free[k];
        assert t.free[k] == c && t.free[i] == b;
        assert c != b && c != a && (i > 0 ==> c != s.free[i - 1]);
        assert t.heap[c] == s.heap[c];
        assert k + 1 < |t.free| ==> t.free[k + 1] == s.free[k + 1];
      }
    }
  }

  /** Without a split, the node leaves the chain. */
  lemma WholeLinked(s: PoolState, t: PoolState, i: nat, size: nat)
    requires AtNode(s, i) && i < |s.free| - 1 && Took(s, t, i, size)
    requires !(s.heap[s.free[i]].flagNsize - size > 2 * H)
    requires InHeap(s.heap, s.free) && Linked(s) && Increasing(s.free)
    ensures InHeap(t.heap, t.free) && Linked(t)
  {
    var a := s.free[i];
    forall k | 0 <= k < |t.free| ensures t.free[k] in t.heap && t.heap[t.free[k]].next == Succ(t.free, k) {
      if k == i - 1 {
        assert t.free[k] == s.free[k] && t.free[i] == s.free[i + 1];
      } else if k < i {
        assert t.free[k] == s.free[k] && t.free[k + 1] == s.free[k + 1];
        assert t.heap[t.free[k]] == s.heap[s.free[k]];
      } else {
        assert t.free[k] == s.free[k + 1] && s.free[k + 1] != a;
        assert t.heap[t.free[k]] == s.heap[s.free[k + 1]];
        assert k + 1 < |t.free| ==> t.free[k + 1] == s.free[k + 2];
      }
    }
  }

  /** The final sentinel stays the final node. */
  lemma TookEnded(s: PoolState, t: PoolState, i: nat, size: nat)
    requires Headed(s) && Ended(s) && AtNode(s, i) && i < |s.free| - 1 && Took(s, t, i, size) && Headed(t)
    requires s.free[i] + size <= s.last
    requires s.last in t.heap && t.heap[s.last].flagNsize == s.heap[s.last].flagNsize
    ensures Ended(t)
  {
    assert t.free[|t.free| - 1] == s.free[|s.free| - 1];
  }

  /** `_free_size` falls by what was taken, as the sum over the list does:
      the node at i gives `taken` bytes, and a split puts the rest back as
      the node `b`. */
  lemma TookSum(s: PoolState, t: PoolState, i: nat, b: nat, taken: nat, split: bool)
    requires InHeap(s.heap, s.free) && InHeap(t.heap, s.free) && i < |s.free| && (split ==> b in t.heap)
    requires s.freeSize == SumSizes(s.heap, s.free) && t.freeSize + taken == s.freeSize
    requires Size(t.heap[s.free[i]]) == taken
    requires split ==> Size(t.heap[b]) == Size(s.heap[s.free[i]]) - taken
    requires !split ==> taken == Size(s.heap[s.free[i]])
    requires t.free == if split then s.free[i := b] else Remove(s.free, i)
    requires forall k :: 0 <= k < |s.free| && k != i ==> Size(t.heap[s.free[k]]) == Size(s.heap[s.free[k]])
    ensures InHeap(t.heap, t.free) && t.freeSize == SumSizes(t.heap, t.free)
  {
    SumExcept(s.heap, t.heap, s.free, i);
    if split {
      SumReplace(t.heap, s.free, i, b);
    } else {
      SumRemove(t.heap, s.free, i);
    }
  }

  /** Facts about the node at i of a valid pool that Take relies on. */
  lemma NodeFacts(s: PoolState, i: nat)
    requires Valid(s) && i < |s.free| - 1
    ensures AtNode(s, i) && InHeap(s.heap, s.free) && s.freeSize < FLAG
    ensures s.free[i] in s.blocks && !Allocated(s.heap[s.free[i]])
    ensures s.heap[s.free[i]].flagNsize <= s.freeSize
    ensures s.free[i] + Size(s.heap[s.free[i]]) <= s.free[i + 1] <= s.last
    ensures i > 0 ==> s.free[i - 1] < s.free[i] && !Allocated(s.heap[s.free[i - 1]])
  {
    FreeBound(s);
    SumRemove(s.heap, s.free, i);
    assert s.free[i] in s.blocks && s.free[i + 1] in s.blocks;
    if i > 0 {
      assert s.free[i - 1] in s.blocks;
    }
  }

  /** The scalar facts about the node at i the lemmas below start from. */
  ghost predicate Fits(s: PoolState, i: nat, size: nat)
    requires AtNode(s, i)
  {
    var a := s.free[i];
    && i < |s.free| - 1 && a in s.blocks && !Allocated(s.heap[a])
    && 0 < size <= Size(s.heap[a]) && size < FLAG
  }

  lemma TookTiled(s: PoolState, t: PoolState, i: nat, size: nat)
    requires Headed(s) && Tiled(s) && AtNode(s, i) && Fits(s, i, size) && Took(s, t, i, size) && Headed(t)
    ensures Tiled(t)
  {
    var a: nat := s.free[i];
    if s.heap[a].flagNsize - size > 2 * H {
      TookCut(s, t, i, size);
      SplitTiled(s, t, a, size);
    } else {
      TiledSizes(s, t);
    }
  }

  lemma TookCut(s: PoolState, t: PoolState, i: nat, size: nat)
    requires Headed(s) && Tiled(s) && AtNode(s, i) && Fits(s, i, size) && Took(s, t, i, size) && Headed(t)
    requires s.heap[s.free[i]].flagNsize - size > 2 * H
    ensures Cut(s, t, s.free[i], size)
  {
    var a: nat := s.free[i];
    TookSizes(s, t, i, size);
    assert forall c :: c in s.blocks && c != a ==> Size(t.heap[c]) == Size(s.heap[c]);
  }

  lemma TookListed(s: PoolState, t: PoolState, i: nat, size: nat)
    requires Headed(s) && Tiled(s) && Listed(s) && AtNode(s, i) && Fits(s, i, size) && Took(s, t, i, size) && Headed(t)
    ensures Listed(t)
  {
    var a: nat := s.free[i];
    TookSizes(s, t, i, size);
    if s.heap[a].flagNsize - size > 2 * H {
      SplitListed(s, t, i, size);
    } else {
      WholeListed(s, t, i);
    }
  }

  lemma TookLinked(s: PoolState, t: PoolState, i: nat, size: nat)
    requires AtNode(s, i) && i < |s.free| - 1 && Took(s, t, i, size)
    requires InHeap(s.heap, s.free) && Linked(s) && Increasing(s.free) && Increasing(t.free)
    ensures InHeap(t.heap, t.free) && Linked(t)
  {
    if s.heap[s.free[i]].flagNsize - size > 2 * H {
      SplitLinked(s, t, i, size);
    } else {
      WholeLinked(s, t, i, size);
    }
  }

  lemma TookSummed(s: PoolState, t: PoolState, i: nat, size: nat)
    requires Headed(s) && Tiled(s) && Listed(s) && AtNode(s, i) && Fits(s, i, size) && Took(s, t, i, size)
    requires InHeap(s.heap, s.free) && s.freeSize == SumSizes(s.heap, s.free)
    ensures InHeap(t.heap, t.free) && t.freeSize == SumSizes(t.heap, t.free)
  {
    var a: nat := s.free[i];
    var l := s.heap[a];
    var split := l.flagNsize - size > 2 * H;
    TookSizes(s, t, i, size);
    forall k | 0 <= k < |s.free| && k != i ensures s.free[k] in t.heap && Size(t.heap[s.free[k]]) == Size(s.heap[s.free[k]]) {
      assert s.free[k] in s.blocks && s.free[k] != a;
    }
    TookSum(s, t, i, a + size, if split then size else l.flagNsize, split);
  }

  lemma TookValid(s: PoolState, t: PoolState, i: nat, size: nat)
    requires Takes(s, i, size) && AtNode(s, i) && Took(s, t, i, size)
    ensures Valid(t)
  {
    NodeFacts(s, i);
    var a: nat := s.free[i];
    TookWords(s, t, i, size);
    TookTiled(s, t, i, size);
    TookListed(s, t, i, size);
    TookLinked(s, t, i, size);
    TookSizes(s, t, i, size);
    TookEnded(s, t, i, size);
    TookSummed(s, t, i, size);
  }

  /** Take keeps the pool valid. */
  lemma TakeValid(s: PoolState, i: nat, size: nat)
    requires Takes(s, i, size)
    ensures Valid(Take(s, i, size))
  {
    NodeFacts(s, i);
    TakeTook(s, i, size);
    TookValid(s, Take(s, i, size), i, size);
  }

  // ----- palloc -----

  /** A request that does not wrap is rounded up to a multiple of W that
      leaves room for the header. */
  lemma RoundedBounds(n: nat)
    requires n < WORD && Representable(n)
    ensures n + H <= Rounded(n) < n + H + W && Rounded(n) % W == 0
  {
  }

  /** A request within 11 bytes of 2^32 wraps: it is rounded to at most one
      header, smaller than what was asked for. */
  lemma RoundedWraps(n: nat)
    requires n < WORD && !Representable(n)
    ensures Rounded(n) <= H < n
  {
    if n + H < WORD {
      assert Add(n, H) + W - 1 >= WORD;
      assert (Add(n, H) + W - 1) % WORD < W;
    } else {
      assert Add(n, H) == n + H - WORD;
    }
  }

  /** Every node of a valid pool holds no more than `_free_size`. */
  lemma NodeBelowFree(s: PoolState, k: nat)
    requires Valid(s) && k < |s.free|
    ensures Size(s.heap[s.free[k]]) <= s.freeSize
  {
    FreeBound(s);
    SumRemove(s.heap, s.free, k);
  }

  /** When palloc(n) succeeds it takes the node FitIndex finds, which is not
      the final sentinel and whose size word is large enough. */
  lemma AllocTakes(s: PoolState, n: nat)
    requires Chained(s) && n < WORD && Alloc(s, n).1 != NULL
    ensures var i := FitIndex(s, Rounded(n), 0);
            && i < |s.free| - 1 && Rounded(n) < FLAG && Rounded(n) <= s.heap[s.free[i]].flagNsize
            && Alloc(s, n).0 == Take(s, i, Rounded(n)) && Alloc(s, n).1 == s.free[i] + H
  {
    var size := Rounded(n);
    var i := FitIndex(s, size, 0);
    assert s.anchor != NULL && n != 0 && size < FLAG && size <= s.freeSize && s.free[i] != s.last;
  }

  /** palloc(n) keeps the pool valid, for a request that does not wrap. */
  lemma AllocValid(s: PoolState, n: nat)
    requires Valid(s) && n < WORD && Representable(n)
    ensures Chained(s) && Valid(Alloc(s, n).0)
  {
    ValidChained(s);
    if Alloc(s, n).1 != NULL {
      AllocTakes(s, n);
      RoundedBounds(n);
      var i := FitIndex(s, Rounded(n), 0);
      assert s.free[i] in s.blocks;
      TakeValid(s, i, Rounded(n));
    }
  }

  /** Some node other than the final sentinel is at least `size` bytes. */
  ghost predicate Fitting(s: PoolState, size: nat)
    requires InHeap(s.heap, s.free)
  {
    exists k :: 0 <= k < |s.free| - 1 && Size(s.heap[s.free[k]]) >= size
  }

  /** When palloc(n) returns NULL it changes nothing. */
  lemma AllocNullSame(s: PoolState, n: nat)
    requires Chained(s) && n < WORD && Alloc(s, n).1 == NULL
    ensures Alloc(s, n).0 == s
  {
  }

  /** palloc(n) returns NULL exactly when no arena is registered, n is 0,
      the rounded request has the top bit set, or no node but the final
      sentinel is large enough; it then changes nothing. */
  lemma AllocNull(s: PoolState, n: nat)
    requires Valid(s) && n < WORD
    ensures Chained(s) && InHeap(s.heap, s.free)
    ensures Alloc(s, n).1 == NULL <==> n == 0 || Rounded(n) >= FLAG || !Fitting(s, Rounded(n))
    ensures Alloc(s, n).1 == NULL ==> Alloc(s, n).0 == s
  {
    ValidChained(s);
    FreeBound(s);
    var size := Rounded(n);
    if s.anchor == NULL {
      assert s.free == [];
    } else if n == 0 || size >= FLAG {
    } else if size > s.freeSize {
      forall k | 0 <= k < |s.free| - 1 ensures Size(s.heap[s.free[k]]) < size {
        NodeBelowFree(s, k);
      }
    } else {
      var i := FitIndex(s, size, 0);
      if s.free[i] == s.last {
        assert i == |s.free| - 1;
        forall k | 0 <= k < |s.free| - 1 ensures Size(s.heap[s.free[k]]) < size {
          assert s.free[k] in s.blocks;
        }
      } else {
        AllocTakes(s, n);
        assert s.free[i] in s.blocks;
      }
    }
  }

  /** A successful palloc(n) leaves the state Took describes. */
  lemma AllocTook(s: PoolState, n: nat)
    requires Valid(s) && n < WORD && Representable(n) && Alloc(s, n).1 != NULL
    ensures Chained(s)
    ensures var i := FitIndex(s, Rounded(n), 0);
            && Takes(s, i, Rounded(n)) && AtNode(s, i)
            && Took(s, Alloc(s, n).0, i, Rounded(n)) && Alloc(s, n).1 == s.free[i] + H
  {
    ValidChained(s);
    AllocTakes(s, n);
    RoundedBounds(n);
    var i := FitIndex(s, Rounded(n), 0);
    assert s.free[i] in s.blocks;
    NodeFacts(s, i);
    TakeTook(s, i, Rounded(n));
  }

  /** The node palloc(n) takes, and the free list it leaves. */
  lemma AllocList(s: PoolState, n: nat)
    requires Valid(s) && n < WORD && Representable(n) && Alloc(s, n).1 != NULL
    ensures Chained(s)
    ensures var i := FitIndex(s, Rounded(n), 0);
            var size := Rounded(n);
            && i < |s.free| - 1 && size <= s.heap[s.free[i]].flagNsize && Alloc(s, n).1 == s.free[i] + H
            && Alloc(s, n).0.free == if s.heap[s.free[i]].flagNsize - size > 2 * H then s.free[i := s.free[i] + size] else Remove(s.free, i)
  {
    AllocTook(s, n);
  }

  /** First fit: a successful palloc(n) hands out the first node in address
      order that is large enough, split when more than two headers remain,
      the rest taking its place in the list. */
  lemma AllocFirstFit(s: PoolState, n: nat)
    requires Valid(s) && n < WORD && Representable(n) && Alloc(s, n).1 != NULL
    ensures Chained(s)
    ensures var i := FitIndex(s, Rounded(n), 0);
            var size := Rounded(n);
            && i < |s.free| - 1 && Alloc(s, n).1 == s.free[i] + H
            && Size(s.heap[s.free[i]]) >= size
            && (forall k :: 0 <= k < i ==> Size(s.heap[s.free[k]]) < size)
            && Alloc(s, n).0.free == if Size(s.heap[s.free[i]]) - size > 2 * H then s.free[i := s.free[i] + size] else Remove(s.free, i)
  {
    AllocList(s, n);
    var i := FitIndex(s, Rounded(n), 0);
    forall k | 0 <= k <= i ensures Size(s.heap[s.free[k]]) == s.heap[s.free[k]].flagNsize {
      assert s.free[k] in s.blocks;
    }
  }

  /** The block a successful palloc(n) hands out: flagged, unlinked, at the
      pointer less one header, large enough for n bytes, of exactly the
      rounded size when split, with `_free_size` down by its size. */
  lemma AllocBlock(s: PoolState, n: nat, t: PoolState, p: nat)
    requires Valid(s) && n < WORD && Representable(n) && (t, p) == Alloc(s, n) && p != NULL
    ensures p >= H && p - H in s.heap && p - H in t.heap && Live(t, p) && t.heap[p - H].next == NULL
    ensures var l := s.heap[p - H];
            var size := Rounded(n);
            && n + H <= size <= Size(t.heap[p - H])
            && (Size(l) - size > 2 * H ==> Size(t.heap[p - H]) == size)
            && (Size(l) - size <= 2 * H ==> Size(t.heap[p - H]) == Size(l))
            && t.freeSize + Size(t.heap[p - H]) == s.freeSize
            && t.numAlloc == Add(s.numAlloc, 1)
  {
    AllocTook(s, n);
    RoundedBounds(n);
    var i := FitIndex(s, Rounded(n), 0);
    assert s.free[i] in s.blocks;
  }

  /** No block starts inside another. */
  lemma Inside(s: PoolState, a: nat, b: nat)
    requires Headed(s) && Tiled(s) && a in s.blocks && a < b < a + Extent(s.heap[a])
    ensures b !in s.blocks
  {
  }

  /** Take leaves every live block alone, and hands out none of them. */
  lemma TookKeeps(s: PoolState, t: PoolState, i: nat, size: nat)
    requires AtNode(s, i) && Took(s, t, i, size) && !Allocated(s.heap[s.free[i]])
    requires i > 0 ==> !Allocated(s.heap[s.free[i - 1]])
    requires s.heap[s.free[i]].flagNsize - size > 2 * H ==> s.free[i] + size !in s.blocks
    ensures forall q: nat :: Live(s, q) ==> q - H in t.heap && Live(t, q) && t.heap[q - H] == s.heap[q - H] && q != s.free[i] + H
  {
  }

  /** palloc(n) leaves every live block as it was, and hands out none of
      them. */
  lemma AllocKeepsLive(s: PoolState, n: nat, t: PoolState, p: nat)
    requires Valid(s) && n < WORD && Representable(n) && (t, p) == Alloc(s, n)
    ensures forall q: nat :: Live(s, q) ==> q - H in t.heap && Live(t, q) && t.heap[q - H] == s.heap[q - H] && q != p
  {
    ValidChained(s);
    if p == NULL {
      AllocNullSame(s, n);
    } else {
      AllocTakes(s, n);
      RoundedBounds(n);
      TakeKeeps(s, FitIndex(s, Rounded(n), 0), Rounded(n));
    }
  }

  lemma TakeKeeps(s: PoolState, i: nat, size: nat)
    requires Valid(s) && i < |s.free| - 1 && 0 < size <= s.heap[s.free[i]].flagNsize && size < FLAG
    ensures AtNode(s, i)
    ensures var t := Take(s, i, size);
            forall q: nat :: Live(s, q) ==> q - H in t.heap && Live(t, q) && t.heap[q - H] == s.heap[q - H] && q != s.free[i] + H
  {
    NodeFacts(s, i);
    if s.heap[s.free[i]].flagNsize - size > 2 * H {
      Inside(s, s.free[i], s.free[i] + size);
    }
    TakeTook(s, i, size);
    TookKeeps(s, Take(s, i, size), i, size);
  }
}
