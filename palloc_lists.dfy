/**
 * Facts about the free list as a sequence: how its total size changes when a
 * node is replaced, removed or inserted, and why that total stays below
 * FLAG.
 */
module PallocLists {
  import opened PallocSpec

  predicate InHeap(h: map<nat, Link>, xs: seq<nat>) {
    forall t :: 0 <= t < |xs| ==> xs[t] in h
  }

  /** The sizes of the nodes are the same in two heaps. */
  predicate SameSizes(h1: map<nat, Link>, h2: map<nat, Link>, xs: seq<nat>)
    requires InHeap(h1, xs) && InHeap(h2, xs)
  {
    forall t :: 0 <= t < |xs| ==> Size(h1[xs[t]]) == Size(h2[xs[t]])
  }

  lemma {:induction false} SumSame(h1: map<nat, Link>, h2: map<nat, Link>, xs: seq<nat>)
    requires InHeap(h1, xs) && InHeap(h2, xs) && SameSizes(h1, h2, xs)
    ensures SumSizes(h1, xs) == SumSizes(h2, xs)
    decreases |xs|
  {
    if xs != [] {
      assert SameSizes(h1, h2, xs[1..]) by {
        forall t | 0 <= t < |xs[1..]| ensures Size(h1[xs[1..][t]]) == Size(h2[xs[1..][t]]) {
          assert xs[1..][t] == xs[t + 1];
        }
      }
      SumSame(h1, h2, xs[1..]);
    }
  }

  /** Two heaps that agree on the sizes of the nodes but the one at i. */
  lemma {:induction false} SumExcept(h1: map<nat, Link>, h2: map<nat, Link>, xs: seq<nat>, i: nat)
    requires InHeap(h1, xs) && InHeap(h2, xs) && i < |xs|
    requires forall t :: 0 <= t < |xs| && t != i ==> Size(h1[xs[t]]) == Size(h2[xs[t]])
    ensures SumSizes(h2, xs) + Size(h1[xs[i]]) == SumSizes(h1, xs) + Size(h2[xs[i]])
    decreases i
  {
    if i > 0 {
      forall t | 0 <= t < |xs[1..]| && t != i - 1 ensures Size(h1[xs[1..][t]]) == Size(h2[xs[1..][t]]) {
        assert xs[1..][t] == xs[t + 1];
      }
      SumExcept(h1, h2, xs[1..], i - 1);
    } else {
      assert SameSizes(h1, h2, xs[1..]) by {
        forall t | 0 <= t < |xs[1..]| ensures Size(h1[xs[1..][t]]) == Size(h2[xs[1..][t]]) {
          assert xs[1..][t] == xs[t + 1];
        }
      }
      SumSame(h1, h2, xs[1..]);
    }
  }

  lemma {:induction false} SumReplace(h: map<nat, Link>, xs: seq<nat>, i: nat, y: nat)
    requires InHeap(h, xs) && i < |xs| && y in h
    ensures InHeap(h, xs[i := y])
    ensures SumSizes(h, xs[i := y]) + Size(h[xs[i]]) == SumSizes(h, xs) + Size(h[y])
    decreases i
  {
    var ys := xs[i := y];
    if i > 0 {
      assert ys[1..] == xs[1..][i - 1 := y];
      SumReplace(h, xs[1..], i - 1, y);
    } else {
      assert ys[1..] == xs[1..];
    }
  }

  lemma {:induction false} SumRemove(h: map<nat, Link>, xs: seq<nat>, i: nat)
    requires InHeap(h, xs) && i < |xs|
    ensures InHeap(h, Remove(xs, i))
    ensures SumSizes(h, Remove(xs, i)) + Size(h[xs[i]]) == SumSizes(h, xs)
    decreases i
  {
    var ys := Remove(xs, i);
    if i > 0 {
      assert ys[0] == xs[0];
      assert ys[1..] == Remove(xs[1..], i - 1);
      SumRemove(h, xs[1..], i - 1);
    } else {
      assert ys == xs[1..];
    }
  }

  lemma {:induction false} SumInsert(h: map<nat, Link>, xs: seq<nat>, i: nat, y: nat)
    requires InHeap(h, xs) && i <= |xs| && y in h
    ensures InHeap(h, Insert(xs, i, y))
    ensures SumSizes(h, Insert(xs, i, y)) == SumSizes(h, xs) + Size(h[y])
    decreases i
  {
    var ys := Insert(xs, i, y);
    if i > 0 {
      assert ys[0] == xs[0];
      assert ys[1..] == Insert(xs[1..], i - 1, y);
      SumInsert(h, xs[1..], i - 1, y);
    } else {
      assert ys[1..] == xs;
    }
  }

  /** Each node ends before the next one starts, and the last below FLAG. */
  predicate Spaced(h: map<nat, Link>, xs: seq<nat>)
    requires InHeap(h, xs)
  {
    && (forall t :: 0 <= t < |xs| - 1 ==> xs[t] + Size(h[xs[t]]) <= xs[t + 1])
    && (|xs| > 0 ==> xs[|xs| - 1] + Size(h[xs[|xs| - 1]]) <= FLAG)
  }

  lemma {:induction false} SumSpaced(h: map<nat, Link>, xs: seq<nat>)
    requires InHeap(h, xs) && Spaced(h, xs) && xs != []
    ensures SumSizes(h, xs) + xs[0] <= FLAG
    decreases |xs|
  {
    if |xs| > 1 {
      assert Spaced(h, xs[1..]) by {
        forall t | 0 <= t < |xs[1..]| - 1 ensures xs[1..][t] + Size(h[xs[1..][t]]) <= xs[1..][t + 1] {
          assert xs[1..][t] == xs[t + 1] && xs[1..][t + 1] == xs[t + 2];
        }
      }
      SumSpaced(h, xs[1..]);
    }
  }

  /** The free list of a valid pool holds less than FLAG bytes. */
  lemma FreeBound(s: PoolState)
    requires Valid(s)
    ensures InHeap(s.heap, s.free)
    ensures s.freeSize < FLAG
  {
    if s.free != [] {
      assert Spaced(s.heap, s.free) by {
        forall t | 0 <= t < |s.free| - 1 ensures s.free[t] + Size(s.heap[s.free[t]]) <= s.free[t + 1] {
          assert s.free[t] in s.blocks && s.free[t + 1] in s.blocks;
        }
        var z := s.free[|s.free| - 1];
        assert z in s.blocks;
      }
      SumSpaced(s.heap, s.free);
    }
  }

  // ----- ordered lists -----

  /** Inserting x between its neighbours keeps a list in address order. */
  lemma InsertOrdered(xs: seq<nat>, j: nat, x: nat)
    requires Increasing(xs) && j <= |xs| && (j > 0 ==> xs[j - 1] < x) && (j < |xs| ==> x < xs[j])
    ensures Increasing(Insert(xs, j, x))
    ensures forall y :: y in Insert(xs, j, x) <==> y in xs || y == x
  {
    InsertMembers(xs, j, x);
    var r := Insert(xs, j, x);
    forall u, v | 0 <= u < v < |r| ensures r[u] < r[v] {
      if v < j {
        assert r[u] == xs[u] && r[v] == xs[v];
      } else if v == j {
        assert r[u] == xs[u] && xs[u] <= xs[j - 1];
      } else if u < j {
        assert r[u] == xs[u] && r[v] == xs[v - 1] && u < v - 1;
      } else if u == j {
        assert r[v] == xs[v - 1] && xs[j] <= xs[v - 1];
      } else {
        assert r[u] == xs[u - 1] && r[v] == xs[v - 1];
      }
    }
  }

  lemma InsertMembers(xs: seq<nat>, j: nat, x: nat)
    requires j <= |xs|
    ensures forall y :: y in Insert(xs, j, x) <==> y in xs || y == x
  {
    assert xs == xs[..j] + xs[j..];
  }

  /** Putting x in the place of the node at j, between the nodes on either
      side, keeps a list in address order. */
  lemma ReplaceOrdered(xs: seq<nat>, j: nat, x: nat)
    requires Increasing(xs) && j + 1 < |xs| && (j > 0 ==> xs[j - 1] < x) && x < xs[j]
    ensures Increasing(xs[j := x])
    ensures forall y :: y in xs[j := x] <==> (y in xs && y != xs[j]) || y == x
  {
    var r := xs[j := x];
    forall u, v | 0 <= u < v < |r| ensures r[u] < r[v] {
      if v == j {
        assert xs[u] <= xs[j - 1];
      }
    }
    forall y ensures y in r <==> (y in xs && y != xs[j]) || y == x {
      if y in xs && y != xs[j] {
        var k :| 0 <= k < |xs| && xs[k] == y;
        assert r[k] == y;
      }
      if y in r {
        var k :| 0 <= k < |r| && r[k] == y;
        assert k != j ==> y == xs[k] && xs[k] != xs[j];
      }
      if y == x {
        assert r[j] == x;
      }
    }
  }

  /** Removing a node keeps a list in address order, and removes only that
      node. */
  lemma RemoveOrdered(xs: seq<nat>, j: nat)
    requires Increasing(xs) && j < |xs|
    ensures Increasing(Remove(xs, j))
    ensures forall y :: y in Remove(xs, j) <==> y in xs && y != xs[j]
  {
    var r := Remove(xs, j);
    forall u, v | 0 <= u < v < |r| ensures r[u] < r[v] {
      var u' := if u < j then u else u + 1;
      var v' := if v < j then v else v + 1;
      assert r[u] == xs[u'] && r[v] == xs[v'];
    }
    forall y ensures y in r <==> y in xs && y != xs[j] {
      if y in xs && y != xs[j] {
        var k :| 0 <= k < |xs| && xs[k] == y;
        assert r[if k < j then k else k - 1] == y;
      }
      if y in r {
        var k :| 0 <= k < |r| && r[k] == y;
        var k' := if k < j then k else k + 1;
        assert y == xs[k'] && k' != j;
      }
    }
  }
}

