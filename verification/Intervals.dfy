/** Interval arithmetic of one allocator page: blocks are maps from start address to size. */
module Intervals {
  import opened Arith

  type Blocks = map<nat, nat>

  /** The blocks cut [lo, hi) into consecutive non-empty pieces. */
  ghost predicate Tiles(lo: nat, hi: nat, all: Blocks) {
    && lo < hi && lo in all
    && (forall a <- all :: 0 < all[a] && lo <= a && a + all[a] <= hi)
    && (forall a <- all :: a + all[a] == hi || a + all[a] in all)
    && (forall a <- all, b <- all | a < b :: a + all[a] <= b)
  }

  /** The used and the free blocks together tile the page. */
  ghost predicate Partition(lo: nat, hi: nat, used: Blocks, free: Blocks) {
    used.Keys !! free.Keys && Tiles(lo, hi, used + free)
  }

  /** No two free blocks touch. */
  ghost predicate Coalesced(free: Blocks) {
    forall a <- free :: a + free[a] !in free
  }

  /** No two free blocks touch, except that x may touch a neighbour. */
  ghost predicate CoalescedBut(free: Blocks, x: nat) {
    forall a <- free | a + free[a] in free :: a == x || a + free[a] == x
  }

  ghost predicate Quantized(m: Blocks, q: nat) {
    0 < q && forall a <- m :: m[a] % q == 0
  }

  /** [a, a + n) is a maximal interval of [lo, hi) that meets no used block. */
  ghost predicate IsHole(lo: nat, hi: nat, used: Blocks, a: nat, n: nat) {
    && 0 < n && lo <= a && a + n <= hi
    && (forall u <- used :: u + used[u] <= a || a + n <= u)
    && (a == lo || exists u :: u in used && u + used[u] == a)
    && (a + n == hi || a + n in used)
  }

  /** The piece that covers x. */
  lemma {:induction false} Cover(lo: nat, hi: nat, all: Blocks, x: nat) returns (a: nat)
    requires Tiles(lo, hi, all) && lo <= x < hi
    ensures a in all && a <= x < a + all[a]
  {
    if x == lo {
      a := lo;
    } else {
      a := Cover(lo, hi, all, x - 1);
      if x == a + all[a] {
        a := x;
      }
    }
  }

  /** Free space is canonical: the free blocks are exactly the maximal gaps of the used ones. */
  lemma FreeAreHoles(lo: nat, hi: nat, used: Blocks, free: Blocks, a: nat, n: nat)
    requires Partition(lo, hi, used, free) && Coalesced(free)
    ensures a in free && free[a] == n <==> IsHole(lo, hi, used, a, n)
  {
    if a in free && free[a] == n {
      FreeIsHole(lo, hi, used, free, a);
    }
    if IsHole(lo, hi, used, a, n) {
      HoleIsFree(lo, hi, used, free, a, n);
    }
  }

  lemma FreeIsHole(lo: nat, hi: nat, used: Blocks, free: Blocks, a: nat)
    requires Partition(lo, hi, used, free) && Coalesced(free) && a in free
    ensures IsHole(lo, hi, used, a, free[a])
  {
    var all := used + free;
    assert all[a] == free[a];
    assert forall u <- used :: all[u] == used[u];
    if a != lo {
      var t := Cover(lo, hi, all, a - 1);
      assert t + all[t] == a;
      assert t in used;
    }
  }

  lemma HoleIsFree(lo: nat, hi: nat, used: Blocks, free: Blocks, a: nat, n: nat)
    requires Partition(lo, hi, used, free) && Coalesced(free) && IsHole(lo, hi, used, a, n)
    ensures a in free && free[a] == n
  {
    var all := used + free;
    assert forall u <- used :: all[u] == used[u];
    assert forall f <- free :: all[f] == free[f];
    var t := Cover(lo, hi, all, a);
    assert t !in used;
    assert t == a;
    var m := free[t];
    assert m < n ==> t + m in used;
    assert n < m ==> t + n in all;
  }

  /** Two coalesced pages with the same used blocks have the same free blocks. */
  lemma FreeDetermined(lo: nat, hi: nat, used: Blocks, free: Blocks, free': Blocks)
    requires Partition(lo, hi, used, free) && Coalesced(free)
    requires Partition(lo, hi, used, free') && Coalesced(free')
    ensures free == free'
  {
    forall a <- free ensures a in free' && free'[a] == free[a] {
      FreeAreHoles(lo, hi, used, free, a, free[a]);
      FreeAreHoles(lo, hi, used, free', a, free[a]);
    }
    forall a <- free' ensures a in free {
      FreeAreHoles(lo, hi, used, free', a, free'[a]);
      FreeAreHoles(lo, hi, used, free, a, free'[a]);
    }
  }

  /** A page made of one free block. */
  lemma Whole(lo: nat, n: nat, q: nat)
    requires 0 < n && 0 < q && n % q == 0
    ensures Partition(lo, lo + n, map[], map[lo := n]) && Coalesced(map[lo := n])
    ensures Quantized(map[], q) && Quantized(map[lo := n], q)
  {
    assert map[] + map[lo := n] == map[lo := n];
  }

  // ---- the three moves the allocator makes on a page ----

  /** Takes n bytes from the free block at a. */
  ghost function Rest(free: Blocks, a: nat, n: nat): Blocks
    requires a in free && 0 < n <= free[a]
  {
    if n < free[a] then (free - {a})[a + n := free[a] - n] else free - {a}
  }

  lemma RestIs(free: Blocks, a: nat, n: nat)
    requires a in free && 0 < n <= free[a]
    ensures Rest(free, a, n) == if n < free[a] then (free - {a})[a + n := free[a] - n] else free - {a}
  {
  }

  lemma SplitTiles(lo: nat, hi: nat, all: Blocks, a: nat, n: nat)
    requires Tiles(lo, hi, all) && a in all && 0 < n < all[a]
    ensures a + n !in all
    ensures Tiles(lo, hi, all[a := n][a + n := all[a] - n])
  {
    var s := all[a := n][a + n := all[a] - n];
    forall b <- s, c <- s | b < c ensures b + s[b] <= c {
      if b == a + n {
        assert c in all && a < c;
      } else {
        assert b in all && (c == a + n || c in all);
      }
    }
    forall b <- s ensures b + s[b] == hi || b + s[b] in s {
      if b == a + n {
        assert a + all[a] == hi || a + all[a] in all;
      } else {
        assert b in all;
      }
    }
  }

  lemma Take(lo: nat, hi: nat, used: Blocks, free: Blocks, a: nat, n: nat)
    requires Partition(lo, hi, used, free) && a in free && 0 < n <= free[a]
    ensures a !in used && (n < free[a] ==> a + n !in free && a + n !in used)
    ensures Partition(lo, hi, used[a := n], Rest(free, a, n))
  {
    hide Tiles;
    var all := used + free;
    if n == free[a] {
      assert used[a := n] + Rest(free, a, n) == all;
    } else {
      SplitTiles(lo, hi, all, a, n);
      assert used[a := n] + Rest(free, a, n) == all[a := n][a + n := all[a] - n];
    }
  }

  lemma TakeCoalesced(lo: nat, hi: nat, used: Blocks, free: Blocks, a: nat, n: nat)
    requires Partition(lo, hi, used, free) && Coalesced(free) && a in free && 0 < n <= free[a]
    ensures Coalesced(Rest(free, a, n))
  {
    var all := used + free;
    assert forall f <- free :: f in all && all[f] == free[f];
    if n < free[a] {
      SplitTiles(lo, hi, all, a, n);
    }
  }

  lemma TakeQuantized(used: Blocks, free: Blocks, a: nat, n: nat, q: nat)
    requires Quantized(used, q) && Quantized(free, q) && a in free && 0 < n <= free[a] && n % q == 0
    ensures Quantized(used[a := n], q) && Quantized(Rest(free, a, n), q)
    ensures n < free[a] ==> q <= free[a] - n
  {
    if n < free[a] {
      ModDiff(free[a], n, q);
    }
  }

  /** Moves the used block at a to the free blocks. */
  lemma Give(lo: nat, hi: nat, used: Blocks, free: Blocks, a: nat)
    requires Partition(lo, hi, used, free) && Coalesced(free) && a in used
    ensures a !in free
    ensures Partition(lo, hi, used - {a}, free[a := used[a]])
    ensures CoalescedBut(free[a := used[a]], a)
  {
    assert (used - {a}) + free[a := used[a]] == used + free;
  }

  ghost predicate Joinable(free: Blocks, a: nat) {
    a in free && a + free[a] in free
  }

  /** Merges the free block at a with the free block that starts where it ends, if there is one. */
  ghost function Join(free: Blocks, a: nat): Blocks {
    if !Joinable(free, a) then free else
      var b := a + free[a];
      free[a := free[a] + free[b]] - {b}
  }

  lemma JoinNothing(free: Blocks, a: nat)
    requires !Joinable(free, a)
    ensures Join(free, a) == free
  {
  }

  lemma JoinIs(free: Blocks, a: nat, b: nat)
    requires a in free && b == a + free[a] && b in free && a != b
    ensures Join(free, a) == (free - {b} - {a})[a := free[a] + free[b]]
  {
  }

  /** Merges the free block at a with the free block right of it. */
  lemma Merge(lo: nat, hi: nat, used: Blocks, free: Blocks, a: nat)
    requires Partition(lo, hi, used, free) && Joinable(free, a)
    ensures Partition(lo, hi, used, Join(free, a))
  {
    hide Tiles;
    var all, b := used + free, a + free[a];
    JoinTiles(lo, hi, all, a);
    assert used + Join(free, a) == all[a := all[a] + all[b]] - {b};
  }

  lemma JoinTiles(lo: nat, hi: nat, all: Blocks, a: nat)
    requires Tiles(lo, hi, all) && a in all && a + all[a] in all
    ensures var b := a + all[a]; Tiles(lo, hi, all[a := all[a] + all[b]] - {b})
  {
  }

  /** No free block ends at x. */
  ghost predicate NoLeft(free: Blocks, x: nat) {
    forall f <- free :: f + free[f] != x
  }

  ghost predicate Positive(free: Blocks) {
    forall f <- free :: 0 < free[f]
  }

  lemma FreeApart(lo: nat, hi: nat, used: Blocks, free: Blocks)
    requires Partition(lo, hi, used, free)
    ensures Positive(free) && forall f <- free, g <- free | f < g :: f + free[f] <= g
  {
    var all := used + free;
    assert forall f <- free :: all[f] == free[f];
  }

  /** If p is the last free block before x, only p can end at x. */
  lemma LastBefore(free: Blocks, p: nat, x: nat)
    requires Positive(free) && p in free && p < x && forall f <- free :: f <= p || x <= f
    requires forall f <- free, g <- free | f < g :: f + free[f] <= g
    ensures forall f <- free | f + free[f] == x :: f == p
  {
  }

  /** If n is the first free block after x, the block at x touches a free block only when it touches n. */
  lemma FirstAfter(free: Blocks, x: nat, n: nat)
    requires Positive(free) && x in free && n in free && x < n && forall f <- free :: f <= x || n <= f
    requires forall f <- free, g <- free | f < g :: f + free[f] <= g
    ensures Joinable(free, x) <==> x + free[x] == n
  {
  }

  lemma LeftJoined(free: Blocks, l: nat)
    requires Positive(free) && l in free && l + free[l] in free && CoalescedBut(free, l + free[l])
    requires forall f <- free | f + free[f] == l + free[l] :: f == l
    ensures CoalescedBut(Join(free, l), l) && NoLeft(Join(free, l), l)
  {
  }

  lemma RightJoined(free: Blocks, x: nat)
    requires Positive(free) && x in free && CoalescedBut(free, x) && NoLeft(free, x)
    ensures if x + free[x] in free then Coalesced(Join(free, x)) else Coalesced(free)
  {
  }

  lemma MergeQuantized(free: Blocks, a: nat, q: nat)
    requires Quantized(free, q) && a in free && a + free[a] in free
    ensures Quantized(Join(free, a), q)
  {
    ModSum(free[a], free[a + free[a]], q);
  }

  // ---- accounting ----

  /** Sum of the sizes of the blocks that start in [lo, hi). */
  ghost function Sum(m: Blocks, lo: nat, hi: nat): nat
    decreases hi
  {
    if hi <= lo then 0 else Sum(m, lo, hi - 1) + if hi - 1 in m then m[hi - 1] else 0
  }

  lemma {:induction false} SumInsert(m: Blocks, lo: nat, hi: nat, a: nat, n: nat)
    requires a !in m && lo <= a
    ensures Sum(m[a := n], lo, hi) == Sum(m, lo, hi) + if a < hi then n else 0
    decreases hi
  {
    if lo < hi {
      SumInsert(m, lo, hi - 1, a, n);
    }
  }

  lemma SumRemove(m: Blocks, lo: nat, hi: nat, a: nat)
    requires a in m && lo <= a < hi
    ensures Sum(m, lo, hi) == Sum(m - {a}, lo, hi) + m[a]
  {
    SumInsert(m - {a}, lo, hi, a, m[a]);
    assert (m - {a})[a := m[a]] == m;
  }

  /** Disjoint blocks inside [lo, e) take at most e - lo bytes. */
  lemma {:induction false} SumBound(m: Blocks, lo: nat, x: nat, e: nat)
    requires lo <= e
    requires forall a <- m :: lo <= a && (a < x ==> a + m[a] <= e)
    requires forall a <- m, b <- m | a < b :: a + m[a] <= b
    ensures Sum(m, lo, x) <= e - lo
    decreases x
  {
    if lo < x {
      if x - 1 in m {
        SumBound(m, lo, x - 1, x - 1);
      } else {
        SumBound(m, lo, x - 1, e);
      }
    }
  }
}
