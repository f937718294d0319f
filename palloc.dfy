/**
 * The allocator of lib/hu/palloc.c as the C code runs it: the globals are
 * the fields of a Pool, the header words a map the methods rewrite in
 * place, and each entry point walks the list with the source's loop. Every
 * method is proved to leave the state the functions of PallocSpec and
 * PallocOps describe, so the lemmas proved about those carry over.
 */
module Palloc {
  import opened PallocSpec
  import opened PallocLists
  import opened PallocAlloc
  import opened PallocFree
  import opened PallocInit
  import opened PallocOps

  /** InsertLink taken apart the way Pool.Splice runs it: the back merge
      gives s1 and `p`, the forward merge s2, and the final link and the
      ghost lists complete it. */
  lemma InsertLinkSteps(s: PoolState, a: nat, j: nat, itor: Ref, back: bool, p: nat, s1: PoolState, s2: PoolState)
    requires InsertReady(s, a) && j == InsertIndex(s, a, 0) && itor == PrevRef(s.free, j)
    requires back == (itor.At? && itor.addr + s.heap[itor.addr].flagNsize == a)
    requires p == if back then itor.addr else a
    requires s1 == if back then s.(heap := s.heap[itor.addr := s.heap[itor.addr].(flagNsize :=
                    Add(s.heap[itor.addr].flagNsize, s.heap[a].flagNsize))]) else s
    requires var nx := s.free[j];
             var forth := p + s1.heap[p].flagNsize == nx;
             s2 == if forth && nx != s.last then SetLink(s1, p, Add(s1.heap[p].flagNsize, s1.heap[nx].flagNsize), s1.heap[nx].next)
                   else if forth then SetNext(s1, At(p), s.last)
                   else SetNext(s1, At(p), nx)
    ensures var nx := s.free[j];
            var absorbed := p + s1.heap[p].flagNsize == nx && nx != s.last;
            var s3 := if back then s2 else SetNext(s2, itor, a);
            InsertLink(s, a) == s3.(blocks := s.blocks - (if back then {a} else {}) - (if absorbed && Size(s.heap[nx]) > 0 then {nx} else {}),
                                    free := if back then (if absorbed then Remove(s.free, j) else s.free)
                                            else if absorbed then s.free[j := a] else Insert(s.free, j, a))
  {
  }

  class Pool {
    /** The header words of every arena, by address. */
    var heap: map<nat, Link>
    /** `_anchor.next`. */
    var anchor: nat
    /** `_ppool_last`. */
    var last: nat
    /** `_free_size`. */
    var freeSize: nat
    /** `_pool_size`. */
    var poolSize: nat
    /** `_num_alloc`. */
    var numAlloc: nat
    /** `_num_free`. */
    var numFree: nat
    /** The header address of every block, sentinels included. */
    ghost var blocks: set<nat>
    /** The nodes of the free list, in list order. */
    ghost var free: seq<nat>

    ghost function State(): PoolState
      reads this
    {
      PoolState(heap, anchor, last, freeSize, poolSize, numAlloc, numFree, blocks, free)
    }

    ghost predicate Valid()
      reads this
    {
      PallocSpec.Valid(State())
    }

    /** The static initialisers of lines 25-32: no arena. */
    constructor ()
      ensures State() == Empty() && Valid()
    {
      heap := map[];
      anchor := NULL;
      last := NULL;
      freeSize := 0;
      poolSize := 0;
      numAlloc := 0;
      numFree := 0;
      blocks := {};
      free := [];
    }

    /** `r->next`. */
    function NextOf(r: Ref): (x: nat)
      reads this
      requires r.At? ==> r.addr in heap
      ensures x == PallocSpec.NextOf(State(), r)
    {
      match r
      case Null => NULL
      case Anchor => anchor
      case At(a) => heap[a].next
    }

    /** `r->next = x`, nothing for NULL. */
    method SetNext(r: Ref, x: nat)
      requires r.At? ==> r.addr in heap
      modifies this
      ensures State() == PallocSpec.SetNext(old(State()), r, x)
    {
      match r
      case Null =>
      case Anchor => anchor := x;
      case At(a) => heap := heap[a := heap[a].(next := x)];
    }

    /** `_set_link`. */
    method SetLink(a: nat, size: nat, next: nat)
      modifies this
      ensures State() == PallocSpec.SetLink(old(State()), a, size, next)
    {
      heap := heap[a := Link(next, size)];
    }

    /** `_set_block`. */
    method SetBlock(start: nat, end: nat, size: nat, next: nat, r: Ref)
      requires r.At? ==> r.addr in heap || r.addr in {start, end}
      modifies this
      ensures State() == PallocSpec.SetBlock(old(State()), start, end, size, next, r)
    {
      SetLink(start, size, end);
      SetLink(end, 0, next);
      SetNext(r, start);
    }

    /** `_insert_link(a)`: the walk of line 251, then the splice. */
    method InsertLink(a: nat)
      requires InsertReady(State(), a) && Linked(State())
      modifies this
      ensures State() == PallocSpec.InsertLink(old(State()), a)
    {
      var itor := FindPrev(a);
      Splice(a, itor);
    }

    /** Line 251: the link whose `next` is the first node at or above `a`. */
    method FindPrev(a: nat) returns (itor: Ref)
      requires InsertReady(State(), a) && Linked(State())
      ensures itor == PrevRef(free, InsertIndex(State(), a, 0))
    {
      ghost var j := InsertIndex(State(), a, 0);
      itor := Anchor;
      ghost var k := 0;
      while NextOf(itor) < a
        invariant k <= j && itor == PrevRef(free, k)
        invariant NextOf(itor) == free[k]
        decreases j - k
      {
        itor := At(NextOf(itor));
        k := k + 1;
      }
    }

    /** Lines 252-270: merge the block at `a` with the link `itor` when that
        ends at `a`, then with the node after it unless that is the final
        sentinel, and link it in. */
    method Splice(a: nat, itor: Ref)
      requires InsertReady(State(), a) && Linked(State()) && itor == PrevRef(free, InsertIndex(State(), a, 0))
      modifies this
      ensures State() == PallocSpec.InsertLink(old(State()), a)
    {
      ghost var s := State();
      ghost var j := InsertIndex(s, a, 0);
      var nx := NextOf(itor);
      assert nx == s.free[j];
      var back, p := MergeBack(a, itor);
      ghost var s1 := State();
      MergeForth(p, nx);
      ghost var s2 := State();
      ghost var absorbed := p + s1.heap[p].flagNsize == nx && nx != s.last;
      if itor != At(p) {
        SetNext(itor, a);
      }
      assert State() == if back then s2 else PallocSpec.SetNext(s2, itor, a);
      InsertLinkSteps(s, a, j, itor, back, p, s1, s2);
      blocks := s.blocks - (if back then {a} else {}) - (if absorbed && Size(s.heap[nx]) > 0 then {nx} else {});
      free := if back then (if absorbed then Remove(s.free, j) else s.free)
              else if absorbed then s.free[j := a] else Insert(s.free, j, a);
    }

    /** Lines 252-256: the link `itor` absorbs the block at `a` when it ends
        there; `p` is the block that goes on. The anchor's size word is 0
        and it lies in no arena, so it never does. */
    method MergeBack(a: nat, itor: Ref) returns (back: bool, p: nat)
      requires a in heap && (itor.At? ==> itor.addr in heap)
      modifies this
      ensures back == (itor.At? && itor.addr + old(heap[itor.addr].flagNsize) == a)
      ensures p == if back then itor.addr else a
      ensures State() == if back then old(State()).(heap := old(heap)[itor.addr := old(heap[itor.addr]).(flagNsize :=
                           Add(old(heap[itor.addr].flagNsize), old(heap[a].flagNsize)))])
                         else old(State())
    {
      back := itor.At? && itor.addr + heap[itor.addr].flagNsize == a;
      p := a;
      if back {
        heap := heap[itor.addr := heap[itor.addr].(flagNsize := Add(heap[itor.addr].flagNsize, heap[a].flagNsize))];
        p := itor.addr;
      }
    }

    /** Lines 257-267: the block at `p` absorbs the node `nx` that starts
        where it ends, unless that is the final sentinel, which it links to
        instead; otherwise it links to `nx`. */
    method MergeForth(p: nat, nx: nat)
      requires p in heap && nx in heap
      modifies this
      ensures var s1 := old(State());
              var forth := p + s1.heap[p].flagNsize == nx;
              State() == if forth && nx != s1.last then PallocSpec.SetLink(s1, p, Add(s1.heap[p].flagNsize, s1.heap[nx].flagNsize), s1.heap[nx].next)
                         else if forth then PallocSpec.SetNext(s1, At(p), s1.last)
                         else PallocSpec.SetNext(s1, At(p), nx)
    {
      var forth := p + heap[p].flagNsize == nx;
      var absorbed := forth && nx != last;
      if absorbed {
        SetLink(p, Add(heap[p].flagNsize, heap[nx].flagNsize), heap[nx].next);
      } else if forth {
        SetNext(At(p), last);
      } else {
        SetNext(At(p), nx);
      }
    }

    /** `palloc(n)`: the four NULL cases of lines 38-47, the first-fit walk
        of lines 49-55, NULL at the final sentinel, and the node taken. A
        valid pool stays valid when palloc can round n. */
    method Palloc(n: nat) returns (p: nat)
      requires Valid() && n < WORD
      modifies this
      ensures (State(), p) == Alloc(old(State()), n)
      ensures Representable(n) ==> Valid()
    {
      ghost var s := State();
      ValidChained(s);
      if Representable(n) {
        AllocValid(s, n);
      }
      if anchor == NULL || n == 0 {
        return NULL;
      }
      var size := Aligned(Add(n, H));
      // `size & PALLOC_ALLOCATED` for a size_t value
      if size >= FLAG {
        return NULL;
      }
      if size > freeSize {
        return NULL;
      }
      assert size == Rounded(n);
      p := TakeFit(size);
    }

    /** Lines 49-76: the first fit for `size`, unless that is the final
        sentinel. */
    method TakeFit(size: nat) returns (p: nat)
      requires Chained(State()) && anchor != NULL
      modifies this
      ensures var s := old(State());
              var i := FitIndex(s, size, 0);
              (State(), p) == if s.free[i] == s.last then (s, NULL) else (Take(s, i, size), s.free[i] + H)
    {
      ghost var i := FitIndex(State(), size, 0);
      var prev, plink := FindFit(size);
      if plink == last {
        return NULL;
      }
      p := plink + H;
      TakeNode(prev, plink, size, i);
    }

    /** Lines 49-55: the walk stops at the first node whose size word
        reaches `size`, or at the final one. */
    method FindFit(size: nat) returns (prev: Ref, plink: nat)
      requires Chained(State()) && anchor != NULL
      ensures var i := FitIndex(State(), size, 0);
              plink == free[i] && prev == PrevRef(free, i)
    {
      ghost var i := FitIndex(State(), size, 0);
      prev := Anchor;
      plink := anchor;
      ghost var k := 0;
      while heap[plink].flagNsize < size && heap[plink].next != NULL
        invariant k <= i && plink == free[k] && prev == PrevRef(free, k)
        decreases i - k
      {
        prev := At(plink);
        plink := heap[plink].next;
        k := k + 1;
      }
    }

    /** Lines 60-76: unlink the node `a` at position i, split off the rest
        when more than two headers remain, and flag the block. */
    method TakeNode(prev: Ref, a: nat, size: nat, ghost i: nat)
      requires AtNode(State(), i) && i < |free| - 1 && a == free[i] && prev == PrevRef(free, i)
      modifies this
      ensures State() == Take(old(State()), i, size)
    {
      ghost var s := State();
      ghost var l := heap[a];
      SetNext(prev, heap[a].next);
      ghost var s1 := State();
      ghost var split := Sub(l.flagNsize, size) > 2 * H;
      if Sub(heap[a].flagNsize, size) > 2 * H {
        SplitNode(prev, a, size);
      }
      FlagNode(a, if split then s.blocks + {a + size} else s.blocks,
               if split then s.free[i := a + size] else Remove(s.free, i));
    }

    /** Lines 63-67: the rest of the node becomes a node of its own. */
    method SplitNode(prev: Ref, a: nat, size: nat)
      requires a in heap && (prev.At? ==> prev.addr in heap)
      modifies this
      ensures var s3 := PallocSpec.SetLink(old(State()), a + size, Sub(old(heap[a].flagNsize), size), old(NextOf(prev)));
              State() == PallocSpec.SetNext(s3.(heap := s3.heap[a := s3.heap[a].(flagNsize := size)]), prev, a + size)
    {
      var rest := a + size;
      SetLink(rest, Sub(heap[a].flagNsize, size), NextOf(prev));
      heap := heap[a := heap[a].(flagNsize := size)];
      SetNext(prev, rest);
    }

    /** Lines 70-76: the block leaves the free size and is flagged. */
    method FlagNode(a: nat, ghost blocks': set<nat>, ghost free': seq<nat>)
      requires a in heap
      modifies this
      ensures var taken := old(heap[a].flagNsize);
              State() == old(State()).(heap := old(heap)[a := Link(NULL, Flagged(taken))],
                                       freeSize := Sub(old(freeSize), taken),
                                       numAlloc := Add(old(numAlloc), 1),
                                       blocks := blocks', free := free')
    {
      var taken := heap[a].flagNsize;
      freeSize := Sub(freeSize, taken);
      heap := heap[a := Link(NULL, Flagged(taken))];
      numAlloc := Add(numAlloc, 1);
      blocks := blocks';
      free := free';
    }

    /** `pfree(p)`: nothing for NULL, for a block without the flag, or for
        one whose link is set; otherwise lines 94-97. A valid pool stays
        valid. */
    method Pfree(p: nat)
      requires Valid() && (p == NULL || (p >= H && p - H in heap))
      modifies this
      ensures State() == Free(old(State()), p)
      ensures Valid()
    {
      ghost var s := State();
      FreeValid(s, p);
      if p != NULL {
        var a := p - H;
        if heap[a].flagNsize >= FLAG {
          if heap[a].next == NULL {
            FreeReleases(s, p, a);
            ReleaseBlock(a);
          }
        }
      }
    }

    /** Lines 94-97: clear the flag, count the size free, put the block back
        on the list and count the call. */
    method ReleaseBlock(a: nat)
      requires a in heap && InsertReady(Cleared(State(), a), a) && Linked(State())
      modifies this
      ensures State() == Release(old(State()), a)
    {
      ghost var s := State();
      var l := heap[a];
      heap := heap[a := l.(flagNsize := Size(l))];
      freeSize := Add(freeSize, Size(l));
      assert State() == Cleared(s, a);
      ClearedLinked(s, a);
      InsertLink(a);
      numFree := Add(numFree, 1);
    }

    /** `pcalloc(num, size)`: palloc of the size_t product when it is not
        zero. The bytes are not part of the model, so the memset is not
        either. */
    method Pcalloc(num: nat, size: nat) returns (p: nat)
      requires Valid() && num < WORD && size < WORD
      modifies this
      ensures (State(), p) == Calloc(old(State()), num, size)
      ensures Representable(Mul(num, size)) ==> Valid()
    {
      var tsize := Mul(num, size);
      p := NULL;
      if tsize > 0 {
        p := Palloc(tsize);
      }
    }

    /** `prealloc(ap, n)`: palloc for NULL, the block itself when it holds
        n bytes, else a new block and the old one freed. The in-place
        growth of lines 130-143 needs the block's link set, which a live
        block never has (ReallocGuardDead), so it is not part of the
        method. */
    method Prealloc(ap: nat, n: nat) returns (r: nat)
      requires ReallocReady(State(), ap, n)
      modifies this
      ensures (State(), r) == Realloc(old(State()), ap, n)
      ensures Valid()
    {
      ghost var s := State();
      ReallocValid(s, ap, n);
      if ap == NULL {
        r := Palloc(n);
        return;
      }
      var csize := Size(heap[ap - H]);
      if csize < n {
        StillLive(s, ap, n);
        r := Palloc(n);
        if r != NULL {
          Pfree(ap);
        }
      } else {
        r := ap;
      }
    }

    /** `palloc_stats`: the walk of lines 163-173, then the three reports
        and the free total. The out-pointers become the fields of the
        result. */
    method PallocStats() returns (st: PallocOps.Stats)
      requires Valid()
      ensures st == StatsOf(State())
    {
      ValidChained(State());
      var links, largest, smallest := WalkStats();
      if smallest == WORD - 1 {
        smallest := 0;
      }
      st := PallocOps.Stats(freeSize, Sub(largest, H), Sub(smallest, H), links);
    }

    /** Lines 160-173: one pass over every node of the list. */
    method WalkStats() returns (links: nat, largest: nat, smallest: nat)
      requires Chained(State())
      ensures links == |free|
      ensures largest == Largest(heap, free) && smallest == Smallest(heap, free)
    {
      links := 0;
      largest := 0;
      smallest := WORD - 1;
      var itor := anchor;
      ghost var k := 0;
      while itor != NULL
        invariant k <= |free| && links == k
        invariant itor == if k < |free| then free[k] else NULL
        invariant largest == Largest(heap, free[..k]) && smallest == Smallest(heap, free[..k])
        decreases |free| - k
      {
        assert free[..k + 1][..k] == free[..k];
        links := links + 1;
        if largest < heap[itor].flagNsize {
          largest := heap[itor].flagNsize;
        }
        if heap[itor].flagNsize > 0 && smallest > heap[itor].flagNsize {
          smallest := heap[itor].flagNsize;
        }
        itor := heap[itor].next;
        k := k + 1;
      }
      assert free[..k] == free;
    }

    /** `palloc_init(pstart, pend)`: align both ends, and add the arena when
        it holds more than two headers. A valid pool stays valid when the
        arena is placed where it may go. */
    method PallocInit(pstart: nat, pend: nat)
      requires Valid() && pstart < WORD && pend < WORD
      modifies this
      ensures (ValidAnchored(old(State())); State() == Init(old(State()), pstart, pend))
      ensures Placeable(old(State()), pstart, pend) ==> Valid()
    {
      ghost var s := State();
      ValidAnchored(s);
      ValidChained(s);
      if Placeable(s, pstart, pend) {
        InitValid(s, pstart, pend);
      }
      var start := Aligned(pstart);
      var end := Aligned(pend);
      var blockSize := Sub(end, start);
      if blockSize > 2 * H {
        var prev, next := FindArena(start);
        AddArena(start, blockSize, prev, next);
      }
    }

    /** Lines 195-202: the first node at or above `start`, NULL past the
        end, and the last link before it that is not the final node. */
    method FindArena(start: nat) returns (prev: Ref, next: nat)
      requires Chained(State())
      ensures var k := InitIndex(State(), start, 0);
              && next == (if k < |free| then free[k] else NULL)
              && (k < |free| ==> prev == PrevRef(free, k))
    {
      ghost var j := InitIndex(State(), start, 0);
      prev := Anchor;
      next := anchor;
      ghost var k := 0;
      while next != NULL && next < start
        invariant k <= j && next == (if k < |free| then free[k] else NULL)
        invariant k < |free| ==> prev == PrevRef(free, k)
        decreases j - k
      {
        if heap[next].next != NULL {
          prev := At(next);
        }
        next := heap[next].next;
        k := k + 1;
      }
    }

    /** Lines 204-229: append the arena after `_ppool_last`, link it in
        before `next`, or ignore it when `next` is its own start (the
        `block_size = 0` of line 222). */
    method AddArena(start: nat, blockSize: nat, prev: Ref, next: nat)
      requires Chained(State()) && Initing(State()) && blockSize > 2 * H
      requires var k := InitIndex(State(), start, 0);
               && next == (if k < |free| then free[k] else NULL)
               && (k < |free| ==> prev == PrevRef(free, k))
      modifies this
      ensures State() == InitAt(old(State()), start, blockSize)
    {
      if next == NULL {
        AppendNew(start, blockSize);
      } else if next > start {
        InsertNew(start, blockSize, prev, next);
      }
    }

    /** Lines 206-211 and 225-229: the arena lies above every node. */
    method AppendNew(start: nat, size: nat)
      requires Initing(State()) && size > 2 * H && InitIndex(State(), start, 0) == |free|
      modifies this
      ensures State() == InitAt(old(State()), start, size)
    {
      ghost var j := |free|;
      AppendArena(start, size);
      GrowBy(start, size, j);
    }

    /** Lines 215-218 and 225-229: the arena goes in before the node `next`,
        the first one above its start. */
    method InsertNew(start: nat, size: nat, prev: Ref, next: nat)
      requires Initing(State()) && size > 2 * H
      requires var k := InitIndex(State(), start, 0);
               k < |free| && next == free[k] && next > start && prev == PrevRef(free, k)
      modifies this
      ensures State() == InitAt(old(State()), start, size)
    {
      ghost var j := InitIndex(State(), start, 0);
      SetBlock(start, Sentinel(start, size), size - H, next, prev);
      GrowBy(start, size, j);
    }

    /** Lines 206-211: the arena's block follows `_ppool_last`, its sentinel
        becomes the new one, and an empty list starts at the block. */
    method AppendArena(start: nat, size: nat)
      requires size >= H && (last == NULL || last in heap)
      modifies this
      ensures var e := Sentinel(start, size);
              var s := old(State());
              var s1 := PallocSpec.SetBlock(s.(last := e), start, e, size - H, NULL, if s.last == NULL then Null else At(s.last));
              State() == if s1.anchor == NULL then PallocSpec.SetNext(s1, Anchor, start) else s1
    {
      var plink := last;
      last := Sentinel(start, size);
      SetBlock(start, last, size - H, NULL, if plink == NULL then Null else At(plink));
      if anchor == NULL {
        SetNext(Anchor, start);
      }
    }

    /** Lines 225-229: count the arena, and its block and sentinel join the
        blocks and the list at position j. */
    method GrowBy(start: nat, size: nat, ghost j: nat)
      requires start in heap && j <= |free| && size >= H
      modifies this
      ensures State() == Grow(old(State()), start, size, j)
    {
      freeSize := Add(freeSize, heap[start].flagNsize);
      poolSize := Add(poolSize, size);
      blocks := blocks + {start, Sentinel(start, size)};
      free := free[..j] + [start, Sentinel(start, size)] + free[j..];
    }
  }
}
