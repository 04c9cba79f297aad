/** The allocator's blocks and the order theory of its intrusive lists.

  A list is described by its ranks: a map from the blocks that are on the list to
  a rank that grows from the head to the tail. A pointer is right when it names the
  neighbour in rank order, so every statement below is about a finite map and not
  about the heap. */
module Blocks {

  class Block {
    var nextFreeS: Block?
    var prevFreeS: Block?
    var nextFreeM: Block?
    var prevFreeM: Block?
    var nextUsed: Block?
    var prevUsed: Block?
    const addr: nat
    var size: nat

    constructor (addr: nat, size: nat)
      ensures this.addr == addr && this.size == size
      ensures nextFreeS == null && prevFreeS == null && nextFreeM == null && prevFreeM == null
      ensures nextUsed == null && prevUsed == null
    {
      this.addr, this.size := addr, size;
      nextFreeS, prevFreeS, nextFreeM, prevFreeM, nextUsed, prevUsed := null, null, null, null, null, null;
    }
  }

  type Ranks = map<Block, real>

  ghost predicate Injective(k: Ranks) {
    forall b <- k, c <- k | k[b] == k[c] :: b == c
  }

  ghost predicate IsFirst(k: Ranks, h: Block?) {
    if h == null then k == map[] else h in k && forall c <- k :: k[h] <= k[c]
  }

  /** n is the list's successor of b. */
  ghost predicate IsNext(k: Ranks, b: Block, n: Block?)
    requires b in k
  {
    if n == null then forall c <- k :: k[c] <= k[b]
    else n in k && k[b] < k[n] && forall c <- k :: k[c] <= k[b] || k[n] <= k[c]
  }

  /** p is the list's predecessor of b. */
  ghost predicate IsPrev(k: Ranks, b: Block, p: Block?)
    requires b in k
  {
    if p == null then forall c <- k :: k[b] <= k[c]
    else p in k && k[p] < k[b] && forall c <- k :: k[c] <= k[p] || k[b] <= k[c]
  }

  /** p and c are consecutive places of the list; null stands for its ends. */
  ghost predicate IsGap(k: Ranks, p: Block?, c: Block?) {
    if p == null then IsFirst(k, c) else p in k && IsNext(k, p, c)
  }

  ghost predicate Fits(k: Ranks, p: Block?, c: Block?, r: real)
    requires IsGap(k, p, c)
  {
    (p != null ==> k[p] < r) && (c != null ==> r < k[c])
  }

  /** A rank for a block placed between p and c. */
  ghost function Between(k: Ranks, p: Block?, c: Block?): (r: real)
    requires IsGap(k, p, c)
    ensures Fits(k, p, c, r)
  {
    if p == null then (if c == null then 0.0 else k[c] - 1.0)
    else if c == null then k[p] + 1.0
    else (k[p] + k[c]) / 2.0
  }

  /** The part of the list from c on; it shrinks along the next pointers. */
  ghost function From(k: Ranks, c: Block?): set<Block> {
    if c == null || c !in k then {} else set b <- k | k[c] <= k[b]
  }

  lemma SingleList(b: Block, r: real)
    ensures Injective(map[b := r]) && IsFirst(map[b := r], b)
    ensures IsNext(map[b := r], b, null) && IsPrev(map[b := r], b, null)
    ensures Injective(map[]) && IsFirst(map[], null)
  {
  }

  lemma Neighbours(k: Ranks, x: Block, n: Block?, p: Block?)
    requires x in k && IsNext(k, x, n) && IsPrev(k, x, p)
    ensures n != null ==> n in k && n != x
    ensures p != null ==> p in k && p != x
    ensures n != null && p != null ==> n != p
  {
  }

  lemma NextPrev(k: Ranks, b: Block, n: Block)
    requires Injective(k) && b in k && IsNext(k, b, n)
    ensures n in k && n != b && IsPrev(k, n, b)
  {
  }

  lemma PrevNext(k: Ranks, b: Block, p: Block, pn: Block?)
    requires Injective(k) && b in k && IsPrev(k, b, p) && p in k && IsNext(k, p, pn)
    ensures p != b && pn == b
  {
  }

  lemma GapEnds(k: Ranks, p: Block?, c: Block?)
    requires IsGap(k, p, c)
    ensures p != null ==> p in k
    ensures c != null ==> c in k
    ensures p != null && c != null ==> p != c
  {
  }

  lemma RemoveInjective(k: Ranks, x: Block)
    requires Injective(k)
    ensures Injective(k - {x})
  {
  }

  lemma RemoveFirst(k: Ranks, x: Block, h: Block?, xn: Block?, xp: Block?)
    requires Injective(k) && x in k
    requires IsFirst(k, h) && IsNext(k, x, xn) && IsPrev(k, x, xp)
    ensures xp == null <==> h == x
    ensures IsFirst(k - {x}, if h == x then xn else h)
  {
  }

  lemma RemoveNext(k: Ranks, x: Block, b: Block, n: Block?, xn: Block?, xp: Block?)
    requires Injective(k) && x in k && b in k && b != x
    requires IsNext(k, b, n) && IsNext(k, x, xn) && IsPrev(k, x, xp)
    ensures n == x <==> b == xp
    ensures IsNext(k - {x}, b, if n == x then xn else n)
  {
  }

  lemma RemovePrev(k: Ranks, x: Block, b: Block, p: Block?, xn: Block?, xp: Block?)
    requires Injective(k) && x in k && b in k && b != x
    requires IsPrev(k, b, p) && IsNext(k, x, xn) && IsPrev(k, x, xp)
    ensures p == x <==> b == xn
    ensures IsPrev(k - {x}, b, if p == x then xp else p)
  {
  }

  lemma InsertSelf(k: Ranks, x: Block, r: real, h: Block?, p: Block?, c: Block?)
    requires Injective(k) && x !in k && IsFirst(k, h) && IsGap(k, p, c) && Fits(k, p, c, r)
    ensures Injective(k[x := r])
    ensures IsFirst(k[x := r], if p == null then x else h)
    ensures IsNext(k[x := r], x, c) && IsPrev(k[x := r], x, p)
  {
  }

  lemma InsertNext(k: Ranks, x: Block, r: real, p: Block?, c: Block?, b: Block, n: Block?)
    requires Injective(k) && x !in k && IsGap(k, p, c) && Fits(k, p, c, r)
    requires b in k && IsNext(k, b, n)
    ensures IsNext(k[x := r], b, if b == p then x else n)
  {
  }

  lemma InsertPrev(k: Ranks, x: Block, r: real, p: Block?, c: Block?, b: Block, n: Block?)
    requires Injective(k) && x !in k && IsGap(k, p, c) && Fits(k, p, c, r)
    requires b in k && IsPrev(k, b, n)
    ensures IsPrev(k[x := r], b, if b == c then x else n)
  {
  }
}
