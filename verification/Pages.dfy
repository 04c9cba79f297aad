/** One page of the allocator: its blocks on three intrusive lists, and how blocks are split and merged.

  The ghost maps U, M and S give the order of the used list, of the free list by address and of the free list by size;
  used and free are the blocks by start address, and usedAt and freeAt find the block objects. */
module Pages {
  import opened Blocks
  import opened Intervals

  class Page {
    var next: Page?
    const addr: nat
    const size: nat
    const blockAlign: nat
    var usedList: Block?
    var freeSList: Block?
    var freeMList: Block?

    ghost var U: Ranks
    ghost var S: Ranks
    ghost var M: Ranks
    ghost var usedAt: map<nat, Block>
    ghost var freeAt: map<nat, Block>
    ghost var used: Intervals.Blocks
    ghost var free: Intervals.Blocks

    ghost predicate ULinks()
      reads `usedList, `U, U.Keys`nextUsed, U.Keys`prevUsed
    {
      && Injective(U) && IsFirst(U, usedList)
      && (forall b <- U :: IsNext(U, b, b.nextUsed) && IsPrev(U, b, b.prevUsed))
    }

    ghost predicate SLinks()
      reads `freeSList, `S, S.Keys`nextFreeS, S.Keys`prevFreeS
    {
      && Injective(S) && IsFirst(S, freeSList)
      && (forall b <- S :: IsNext(S, b, b.nextFreeS) && IsPrev(S, b, b.prevFreeS))
    }

    ghost predicate MLinks()
      reads `freeMList, `M, M.Keys`nextFreeM, M.Keys`prevFreeM
    {
      && Injective(M) && IsFirst(M, freeMList)
      && (forall b <- M :: IsNext(M, b, b.nextFreeM) && IsPrev(M, b, b.prevFreeM))
    }

    /** The S-list is sorted by decreasing size. */
    ghost predicate SSorted()
      reads `S, S.Keys`size
    {
      SizeSorted(S)
    }

    static ghost predicate SizeSorted(k: Ranks)
      reads k.Keys`size
    {
      forall b <- k, c <- k | k[b] < k[c] :: b.size >= c.size
    }

    /** The M-list is sorted by increasing address. */
    ghost predicate MSorted()
      reads `M
    {
      forall b <- M :: M[b] == b.addr as real
    }

    method RemoveUsedList(block: Block)
      requires ULinks() && block in U
      modifies `usedList, `U, U.Keys`nextUsed, U.Keys`prevUsed
      ensures U == old(U) - {block} && ULinks()
      ensures block.nextUsed == null && block.prevUsed == null
    {
      hide IsNext, IsPrev, IsFirst, Injective;
      ghost var bn, bp := block.nextUsed, block.prevUsed;
      Neighbours(U, block, bn, bp);
      RemoveFirst(U, block, usedList, bn, bp);
      if block.prevUsed != null {
        block.prevUsed.nextUsed := block.nextUsed;
      } else {
        usedList := block.nextUsed;
      }
      if block.nextUsed != null {
        block.nextUsed.prevUsed := block.prevUsed;
      }
      block.nextUsed := null;
      block.prevUsed := null;
      U := U - {block};
      RemoveInjective(old(U), block);
      forall b <- U ensures IsNext(U, b, b.nextUsed) && IsPrev(U, b, b.prevUsed) {
        assert b in old(U);
        RemoveNext(old(U), block, b, old(b.nextUsed), bn, bp);
        RemovePrev(old(U), block, b, old(b.prevUsed), bn, bp);
      }
    }

    /** Only nextUsed is written: the caller passes a block whose prevUsed is null. */
    method InsertUsedList(block: Block)
      requires ULinks() && block !in U && block.prevUsed == null
      modifies `usedList, `U, U.Keys`prevUsed, block`nextUsed
      ensures U.Keys == old(U).Keys + {block} && ULinks()
    {
      ghost var c := usedList;
      ghost var r := Between(U, null, c);
      InsertSelf(U, block, r, c, null, c);
      hide IsNext, IsPrev, IsFirst, Injective;
      GapEnds(U, null, c);
      block.nextUsed := usedList;
      if usedList != null {
        usedList.prevUsed := block;
      }
      usedList := block;
      U := U[block := r];
      forall b <- U ensures IsNext(U, b, b.nextUsed) && IsPrev(U, b, b.prevUsed) {
        if b != block {
          assert b in old(U);
          InsertNext(old(U), block, r, null, c, b, old(b.nextUsed));
          InsertPrev(old(U), block, r, null, c, b, old(b.prevUsed));
        }
      }
    }

    method RemoveFreeMList(block: Block)
      requires MLinks() && block in M
      modifies `freeMList, `M, M.Keys`nextFreeM, M.Keys`prevFreeM
      ensures M == old(M) - {block} && MLinks()
    {
      hide IsNext, IsPrev, IsFirst, Injective;
      ghost var bn, bp := block.nextFreeM, block.prevFreeM;
      Neighbours(M, block, bn, bp);
      RemoveFirst(M, block, freeMList, bn, bp);
      if block.prevFreeM != null {
        block.prevFreeM.nextFreeM := block.nextFreeM;
      } else {
        freeMList := block.nextFreeM;
      }
      if block.nextFreeM != null {
        block.nextFreeM.prevFreeM := block.prevFreeM;
      }
      block.nextFreeM := null;
      block.prevFreeM := null;
      M := M - {block};
      RemoveInjective(old(M), block);
      forall b <- M ensures IsNext(M, b, b.nextFreeM) && IsPrev(M, b, b.prevFreeM) {
        assert b in old(M);
        RemoveNext(old(M), block, b, old(b.nextFreeM), bn, bp);
        RemovePrev(old(M), block, b, old(b.prevFreeM), bn, bp);
      }
    }

    /** The search of insertFreeMList: the place of an address in the M-list. */
    method FindFreeMPlace(addr: nat) returns (prevBlock: Block?, currBlock: Block?)
      requires MLinks()
      ensures IsGap(M, prevBlock, currBlock)
      ensures prevBlock != null ==> prevBlock.addr < addr
      ensures currBlock != null ==> addr <= currBlock.addr
    {
      currBlock := freeMList;
      prevBlock := null;
      while currBlock != null && currBlock.addr < addr
        invariant IsGap(M, prevBlock, currBlock)
        invariant prevBlock != null ==> prevBlock.addr < addr
        decreases From(M, currBlock)
      {
        assert currBlock in From(M, currBlock);
        prevBlock := currBlock;
        currBlock := currBlock.nextFreeM;
        assert prevBlock !in From(M, currBlock);
        assert From(M, currBlock) <= From(M, prevBlock);
      }
    }

    method InsertFreeMList(block: Block)
      requires MLinks() && MSorted() && block !in M
      requires forall b <- M :: b.addr != block.addr
      modifies `freeMList, `M, M.Keys`nextFreeM, M.Keys`prevFreeM, block`nextFreeM, block`prevFreeM
      ensures M == old(M)[block := block.addr as real] && MLinks() && MSorted()
    {
      var prevBlock, currBlock := FindFreeMPlace(block.addr);
      GapEnds(M, prevBlock, currBlock);
      LinkFreeM(block, prevBlock, currBlock);
    }

    /** The tail of insertFreeMList: links block in between two neighbours. */
    method LinkFreeM(block: Block, prevBlock: Block?, currBlock: Block?)
      requires MLinks() && block !in M && IsGap(M, prevBlock, currBlock)
      requires Fits(M, prevBlock, currBlock, block.addr as real)
      modifies `freeMList, `M, M.Keys`nextFreeM, M.Keys`prevFreeM, block`nextFreeM, block`prevFreeM
      ensures M == old(M)[block := block.addr as real] && MLinks()
    {
      hide IsNext, IsPrev, IsFirst, Injective, IsGap, Fits;
      ghost var r := block.addr as real;
      InsertSelf(M, block, r, freeMList, prevBlock, currBlock);
      GapEnds(M, prevBlock, currBlock);
      block.nextFreeM := currBlock;
      block.prevFreeM := prevBlock;
      if prevBlock != null {
        prevBlock.nextFreeM := block;
      } else {
        freeMList := block;
      }
      if currBlock != null {
        currBlock.prevFreeM := block;
      }
      M := M[block := r];
      forall b | b in old(M) ensures IsNext(M, b, b.nextFreeM) {
        InsertNext(old(M), block, r, prevBlock, currBlock, b, old(b.nextFreeM));
      }
      forall b | b in old(M) ensures IsPrev(M, b, b.prevFreeM) {
        InsertPrev(old(M), block, r, prevBlock, currBlock, b, old(b.prevFreeM));
      }
      assert forall b <- M :: b == block || b in old(M);
    }

    method RemoveFreeSList(block: Block)
      requires SLinks() && block in S
      modifies `freeSList, `S, S.Keys`nextFreeS, S.Keys`prevFreeS
      ensures S == old(S) - {block} && SLinks()
    {
      hide IsNext, IsPrev, IsFirst, Injective;
      ghost var bn, bp := block.nextFreeS, block.prevFreeS;
      Neighbours(S, block, bn, bp);
      RemoveFirst(S, block, freeSList, bn, bp);
      if block.prevFreeS != null {
        block.prevFreeS.nextFreeS := block.nextFreeS;
      } else {
        freeSList := block.nextFreeS;
      }
      if block.nextFreeS != null {
        block.nextFreeS.prevFreeS := block.prevFreeS;
      }
      block.nextFreeS := null;
      block.prevFreeS := null;
      S := S - {block};
      RemoveInjective(old(S), block);
      forall b <- S ensures IsNext(S, b, b.nextFreeS) && IsPrev(S, b, b.prevFreeS) {
        assert b in old(S);
        RemoveNext(old(S), block, b, old(b.nextFreeS), bn, bp);
        RemovePrev(old(S), block, b, old(b.prevFreeS), bn, bp);
      }
    }

    /** The search of insertFreeSList: the place of a size in the S-list. */
    method FindFreeSPlace(size: nat) returns (prevBlock: Block?, currBlock: Block?)
      requires SLinks()
      ensures IsGap(S, prevBlock, currBlock)
      ensures prevBlock != null ==> prevBlock.size > size
      ensures currBlock != null ==> size >= currBlock.size
    {
      currBlock := freeSList;
      prevBlock := null;
      while currBlock != null && currBlock.size > size
        invariant IsGap(S, prevBlock, currBlock)
        invariant prevBlock != null ==> prevBlock.size > size
        decreases From(S, currBlock)
      {
        assert currBlock in From(S, currBlock);
        prevBlock := currBlock;
        currBlock := currBlock.nextFreeS;
        assert prevBlock !in From(S, currBlock);
        assert From(S, currBlock) <= From(S, prevBlock);
      }
    }

    method InsertFreeSList(block: Block)
      requires SLinks() && SSorted() && block !in S
      modifies `freeSList, `S, S.Keys`nextFreeS, S.Keys`prevFreeS, block`nextFreeS, block`prevFreeS
      ensures S.Keys == old(S).Keys + {block} && SLinks() && SSorted()
    {
      hide SLinks, SizeSorted, IsGap, Fits, IsFirst, IsNext;
      var prevBlock, currBlock := FindFreeSPlace(block.size);
      GapEnds(S, prevBlock, currBlock);
      ghost var r := Between(S, prevBlock, currBlock);
      SortedInsert(block, prevBlock, currBlock, r);
      LinkFreeS(block, prevBlock, currBlock, r);
    }

    lemma SortedInsert(block: Block, p: Block?, c: Block?, r: real)
      requires SLinks() && SSorted() && block !in S && IsGap(S, p, c) && Fits(S, p, c, r)
      requires p != null ==> p.size > block.size
      requires c != null ==> c.size <= block.size
      ensures SizeSorted(S[block := r])
    {
      assert forall b <- S :: if S[b] < r then b.size >= block.size else r < S[b] && b.size <= block.size;
    }

    /** The tail of insertFreeSList: links block in between two neighbours, at rank r. */
    method LinkFreeS(block: Block, prevBlock: Block?, currBlock: Block?, ghost r: real)
      requires SLinks() && block !in S && IsGap(S, prevBlock, currBlock)
      requires Fits(S, prevBlock, currBlock, r)
      modifies `freeSList, `S, S.Keys`nextFreeS, S.Keys`prevFreeS, block`nextFreeS, block`prevFreeS
      ensures S == old(S)[block := r] && SLinks()
    {
      hide IsNext, IsPrev, IsFirst, Injective, IsGap, Fits;
      InsertSelf(S, block, r, freeSList, prevBlock, currBlock);
      GapEnds(S, prevBlock, currBlock);
      block.nextFreeS := currBlock;
      block.prevFreeS := prevBlock;
      if prevBlock != null {
        prevBlock.nextFreeS := block;
      } else {
        freeSList := block;
      }
      if currBlock != null {
        currBlock.prevFreeS := block;
      }
      S := S[block := r];
      forall b | b in old(S) ensures IsNext(S, b, b.nextFreeS) {
        InsertNext(old(S), block, r, prevBlock, currBlock, b, old(b.nextFreeS));
      }
      forall b | b in old(S) ensures IsPrev(S, b, b.prevFreeS) {
        InsertPrev(old(S), block, r, prevBlock, currBlock, b, old(b.prevFreeS));
      }
      assert forall b <- S :: b == block || b in old(S);
    }

    lemma Smallest(freeBlock: Block, size: nat)
      requires SLinks() && SSorted() && freeBlock in S && size <= freeBlock.size
      requires freeBlock.nextFreeS != null ==> freeBlock.nextFreeS.size < size
      ensures forall b <- S | size <= b.size :: freeBlock.size <= b.size
    {
      forall b <- S | S[freeBlock] < S[b] ensures b.size < size {
        var n := freeBlock.nextFreeS;
        assert IsNext(S, freeBlock, n);
        assert n != null && (n == b || S[n] < S[b]);
      }
      assert forall b <- S | S[b] == S[freeBlock] :: b == freeBlock;
    }

    // ---- the page invariant ----

    /** at finds exactly the blocks of ks by their addresses. */
    static ghost predicate Finds(at: map<nat, Block>, ks: set<Block>) {
      && (forall b <- ks :: b.addr in at && at[b.addr] == b)
      && (forall a <- at :: at[a] in ks && at[a].addr == a)
    }

    static ghost predicate Sized(at: map<nat, Block>, m: Intervals.Blocks)
      reads at.Values`size
    {
      at.Keys == m.Keys && forall a <- at :: at[a].size == m[a]
    }

    lemma Added(at: map<nat, Block>, ks: set<Block>, m: Intervals.Blocks, b: Block)
      requires Finds(at, ks) && Sized(at, m) && b.addr !in m
      ensures b !in ks
      ensures Finds(at[b.addr := b], ks + {b}) && Sized(at[b.addr := b], m[b.addr := b.size])
    {
    }

    lemma Removed(at: map<nat, Block>, ks: set<Block>, m: Intervals.Blocks, b: Block)
      requires Finds(at, ks) && Sized(at, m) && b in ks
      ensures b.addr in m && m[b.addr] == b.size
      ensures Finds(at - {b.addr}, ks - {b}) && Sized(at - {b.addr}, m - {b.addr})
      ensures b !in (at - {b.addr}).Values
    {
    }

    /** The free blocks carry no stale link of the used list. */
    ghost predicate Clean()
      reads `M, M.Keys`nextUsed, M.Keys`prevUsed
    {
      forall b <- M :: b.nextUsed == null && b.prevUsed == null
    }

    ghost predicate UsedSide()
      reads `usedList, `U, `usedAt, `used, U.Keys`nextUsed, U.Keys`prevUsed, usedAt.Values`size
    {
      ULinks() && Finds(usedAt, U.Keys) && Sized(usedAt, used)
    }

    ghost predicate MSide()
      reads `freeMList, `M, `freeAt, `free, M.Keys`nextFreeM, M.Keys`prevFreeM, freeAt.Values`size
      reads M.Keys`nextUsed, M.Keys`prevUsed
    {
      MLinks() && MSorted() && Clean() && Finds(freeAt, M.Keys) && Sized(freeAt, free)
    }

    ghost predicate SSide()
      reads `freeSList, `S, S.Keys`nextFreeS, S.Keys`prevFreeS, S.Keys`size
    {
      SLinks() && SSorted()
    }

    /** The used and free blocks tile the page, no two free blocks touch, all sizes are multiples of blockAlign. */
    ghost predicate Tidy(used: Intervals.Blocks, free: Intervals.Blocks) {
      && Partition(addr, addr + size, used, free) && Coalesced(free)
      && Quantized(used, blockAlign) && Quantized(free, blockAlign)
    }

    ghost function Repr(): set<object>
      reads `U, `S, `M
      ensures this in Repr()
    {
      {this} + U.Keys + S.Keys + M.Keys
    }

    ghost predicate Valid()
      reads `usedList, `U, `usedAt, `used, `freeMList, `M, `freeAt, `free, `freeSList, `S
      reads Repr() - {this}
    {
      && usedAt.Values <= U.Keys && freeAt.Values <= M.Keys
      && UsedSide() && MSide() && SSide() && S.Keys == M.Keys && U.Keys !! M.Keys && Tidy(used, free)
    }

    constructor (addr: nat, size: nat, blockAlign: nat)
      requires 0 < blockAlign && 0 < size && size % blockAlign == 0
      ensures Valid() && fresh(Repr())
      ensures this.addr == addr && this.size == size && this.blockAlign == blockAlign
      ensures used == map[] && free == map[addr := size] && next == null
    {
      var b := new Block(addr, size);
      this.addr, this.size, this.blockAlign := addr, size, blockAlign;
      next, usedList, freeSList, freeMList := null, null, b, b;
      U, S, M := map[], map[b := 0.0], map[b := addr as real];
      usedAt, freeAt := map[], map[addr := b];
      used, free := map[], map[addr := size];
      new;
      hide *;
      InitSides(b);
      InitTidy();
      InitValid(b);
    }

    lemma InitValid(b: Block)
      requires UsedSide() && MSide() && SSide() && Tidy(used, free)
      requires U.Keys == {} && S.Keys == {b} && M.Keys == {b}
      ensures Valid() && Repr() == {this, b}
    {
      hide UsedSide, MSide, SSide, Tidy, Valid, Repr;
      CloseValid();
    }

    lemma InitTidy()
      requires used == map[] && free == map[addr := size] && 0 < blockAlign && 0 < size && size % blockAlign == 0
      ensures Tidy(used, free)
    {
      Whole(addr, size, blockAlign);
    }

    lemma CloseTidy()
      requires Partition(addr, addr + size, used, free) && Coalesced(free)
      requires Quantized(used, blockAlign) && Quantized(free, blockAlign)
      ensures Tidy(used, free)
    {
    }

    lemma InitSides(b: Block)
      requires usedList == null && freeSList == b && freeMList == b
      requires b.nextFreeS == null && b.prevFreeS == null && b.nextFreeM == null && b.prevFreeM == null
      requires b.nextUsed == null && b.prevUsed == null
      requires U == map[] && S == map[b := 0.0] && M == map[b := b.addr as real]
      requires usedAt == map[] && freeAt == map[b.addr := b] && used == map[] && free == map[b.addr := b.size]
      ensures UsedSide() && MSide() && SSide()
    {
      SingleList(b, 0.0);
      SingleList(b, b.addr as real);
      hide Injective, IsFirst, IsNext, IsPrev;
    }

    /** Whether nothing of the page is in use. */
    method Empty() returns (r: bool)
      requires Valid()
      ensures r <==> used == map[]
    {
      r := usedList == null;
      if r {
        assert U.Keys == {};
        assert usedAt.Keys == {};
      } else {
        assert usedList in U;
      }
    }

    method FindUsedBlock(a: nat) returns (useBlock: Block?)
      requires Valid()
      ensures useBlock == null <==> a !in used
      ensures useBlock != null ==> useBlock in U && useBlock.addr == a && useBlock.size == used[a]
    {
      if this.addr <= a < this.addr + size {
        useBlock := usedList;
        while useBlock != null
          invariant useBlock != null ==> useBlock in U
          invariant a in used ==> usedAt[a] in From(U, useBlock)
          decreases From(U, useBlock)
        {
          if useBlock.addr == a {
            return;
          }
          ghost var prev := useBlock;
          assert prev in From(U, prev);
          useBlock := useBlock.nextUsed;
          assert prev !in From(U, useBlock);
          assert From(U, useBlock) <= From(U, prev);
        }
      }
      useBlock := null;
    }

    /** The S-list starts with the largest block; the search ends at the smallest one that fits. */
    method FindFreeBlock(size: nat) returns (freeBlock: Block?)
      requires Valid()
      ensures freeBlock == null <==> forall f <- free :: free[f] < size
      ensures freeBlock != null ==> freeBlock in M && freeBlock.addr in free && size <= free[freeBlock.addr] == freeBlock.size
      ensures freeBlock != null ==> forall f <- free | size <= free[f] :: freeBlock.size <= free[f]
    {
      freeBlock := freeSList;
      if freeBlock == null || freeBlock.size < size {
        NoneFits(size);
        return null;
      }
      while freeBlock.nextFreeS != null && freeBlock.nextFreeS.size >= size
        invariant freeBlock != null && freeBlock in S && size <= freeBlock.size
        decreases From(S, freeBlock)
      {
        ghost var prev := freeBlock;
        assert prev in From(S, prev);
        freeBlock := freeBlock.nextFreeS;
        assert prev !in From(S, freeBlock);
        assert From(S, freeBlock) <= From(S, prev);
      }
      Smallest(freeBlock, size);
      BestIs(freeBlock, size);
    }

    lemma NoneFits(size: nat)
      requires Valid() && (freeSList == null || freeSList.size < size)
      ensures forall f <- free :: free[f] < size
    {
      assert IsFirst(S, freeSList);
      forall f <- free ensures free[f] < size {
        var b := freeAt[f];
        assert b in S && (S[freeSList] < S[b] || freeSList == b);
      }
    }

    lemma BestIs(best: Block, size: nat)
      requires Valid() && best in S && size <= best.size
      requires forall b <- S | size <= b.size :: best.size <= b.size
      ensures best in M && best.addr in free && free[best.addr] == best.size
      ensures forall f <- free | size <= free[f] :: best.size <= free[f]
    {
      assert freeAt[best.addr] == best;
      forall f <- free | size <= free[f] ensures best.size <= free[f] {
        assert freeAt[f] in S;
      }
    }

    // ---- allocate ----

    method TakeM(block: Block)
      requires MSide() && block in M
      modifies `freeMList, `M, M.Keys`nextFreeM, M.Keys`prevFreeM, `freeAt, `free
      ensures MSide() && M == old(M) - {block} && free == old(free) - {block.addr}
      ensures freeAt == old(freeAt) - {block.addr} && block !in freeAt.Values
    {
      hide MLinks, Finds, Sized;
      Removed(freeAt, M.Keys, free, block);
      RemoveFreeMList(block);
      freeAt, free := freeAt - {block.addr}, free - {block.addr};
      assert M.Keys == old(M).Keys - {block};
    }

    method TakeS(block: Block)
      requires SSide() && block in S
      modifies `freeSList, `S, S.Keys`nextFreeS, S.Keys`prevFreeS
      ensures SSide() && S == old(S) - {block}
    {
      hide SLinks, SizeSorted;
      SizeSortedRemove(S, block);
      RemoveFreeSList(block);
    }

    lemma SizeSortedRemove(k: Ranks, b: Block)
      requires SizeSorted(k)
      ensures SizeSorted(k - {b})
    {
    }

    method AddM(block: Block)
      requires MSide() && block.addr !in free
      requires block.nextUsed == null && block.prevUsed == null
      modifies `freeMList, `M, M.Keys`nextFreeM, M.Keys`prevFreeM, block`nextFreeM, block`prevFreeM, `freeAt, `free
      ensures MSide() && M.Keys == old(M).Keys + {block} && free == old(free)[block.addr := block.size]
      ensures freeAt == old(freeAt)[block.addr := block]
    {
      hide MLinks, Finds, Sized;
      Added(freeAt, M.Keys, free, block);
      FreshAddr(block);
      InsertFreeMList(block);
      freeAt, free := freeAt[block.addr := block], free[block.addr := block.size];
      assert M.Keys == old(M).Keys + {block};
    }

    lemma FreshAddr(block: Block)
      requires Finds(freeAt, M.Keys) && Sized(freeAt, free) && block.addr !in free
      ensures forall b <- M :: b.addr != block.addr
    {
    }

    method AddS(block: Block)
      requires SSide() && block !in S
      modifies `freeSList, `S, S.Keys`nextFreeS, S.Keys`prevFreeS, block`nextFreeS, block`prevFreeS
      ensures SSide() && S.Keys == old(S).Keys + {block}
    {
      hide SLinks, SizeSorted;
      InsertFreeSList(block);
    }

    method AddUsed(block: Block)
      requires UsedSide() && block.addr !in used && block.prevUsed == null
      modifies `usedList, `U, U.Keys`prevUsed, block`nextUsed, `usedAt, `used
      ensures UsedSide()
      ensures U.Keys == old(U).Keys + {block} && used == old(used)[block.addr := block.size]
      ensures usedAt == old(usedAt)[block.addr := block]
    {
      hide ULinks, Finds, Sized;
      Added(usedAt, U.Keys, used, block);
      InsertUsedList(block);
      usedAt, used := usedAt[block.addr := block], used[block.addr := block.size];
    }

    method TakeUsed(block: Block)
      requires UsedSide() && block in U
      modifies `usedList, `U, U.Keys`nextUsed, U.Keys`prevUsed, `usedAt, `used
      ensures UsedSide() && U == old(U) - {block} && used == old(used) - {block.addr}
      ensures usedAt == old(usedAt) - {block.addr}
      ensures block.nextUsed == null && block.prevUsed == null
    {
      hide ULinks, Finds, Sized;
      Removed(usedAt, U.Keys, used, block);
      RemoveUsedList(block);
      usedAt, used := usedAt - {block.addr}, used - {block.addr};
      assert U.Keys == old(U).Keys - {block};
    }

    lemma FreeBlockFacts(b: Block)
      requires MSide() && b in M
      ensures b.addr in free && free[b.addr] == b.size && b.nextUsed == null && b.prevUsed == null
    {
    }

    lemma TakeTidy(a: nat, n: nat)
      requires Tidy(used, free) && a in free && 0 < n <= free[a] && n % blockAlign == 0
      ensures Tidy(used[a := n], Rest(free, a, n)) && a !in used
      ensures n < free[a] ==> a + n !in free && blockAlign <= free[a] - n
      ensures 0 < blockAlign
    {
      Take(addr, addr + size, used, free, a, n);
      TakeCoalesced(addr, addr + size, used, free, a, n);
      TakeQuantized(used, free, a, n, blockAlign);
    }

    /** Takes a block off both free lists. */
    method DetachFree(block: Block)
      requires MSide() && SSide() && S.Keys == M.Keys && block in M
      modifies `freeMList, `M, M.Keys`nextFreeM, M.Keys`prevFreeM, `freeAt, `free
      modifies `freeSList, `S, S.Keys`nextFreeS, S.Keys`prevFreeS
      ensures MSide() && SSide() && S.Keys == M.Keys
      ensures M == old(M) - {block} && free == old(free) - {block.addr}
      ensures freeAt == old(freeAt) - {block.addr} && block !in freeAt.Values
    {
      hide *;
      TakeM(block);
      TakeS(block);
    }

    /** Puts a block on both free lists. */
    method AttachFree(block: Block)
      requires MSide() && SSide() && S.Keys == M.Keys && block.addr !in free && block !in M
      requires block.nextUsed == null && block.prevUsed == null
      modifies `freeMList, `M, M.Keys`nextFreeM, M.Keys`prevFreeM, block`nextFreeM, block`prevFreeM, `freeAt, `free
      modifies `freeSList, `S, S.Keys`nextFreeS, S.Keys`prevFreeS, block`nextFreeS, block`prevFreeS
      ensures MSide() && SSide() && S.Keys == M.Keys
      ensures M.Keys == old(M).Keys + {block} && free == old(free)[block.addr := block.size]
      ensures freeAt == old(freeAt)[block.addr := block]
    {
      hide *;
      AddM(block);
      AddS(block);
    }

    /** Cuts a detached block to the requested size and frees what is left over. */
    method SplitOff(block: Block, size: nat)
      requires MSide() && SSide() && S.Keys == M.Keys && block !in M && block !in freeAt.Values
      requires 0 < size < block.size && block.addr + size !in free
      modifies `freeMList, `M, M.Keys`nextFreeM, M.Keys`prevFreeM, `freeAt, `free, block`size
      modifies `freeSList, `S, S.Keys`nextFreeS, S.Keys`prevFreeS
      ensures MSide() && SSide() && S.Keys == M.Keys
      ensures block.size == size && free == old(free)[block.addr + size := old(block.size) - size]
      ensures block !in M && old(M).Keys <= M.Keys && fresh(M.Keys - old(M).Keys)
      ensures forall b <- freeAt.Values :: b in old(freeAt).Values || fresh(b)
    {
      hide *;
      var extraBytes := block.size - size;
      block.size := size;
      var newBlock := new Block(block.addr + size, extraBytes);
      AttachFree(newBlock);
    }

    /** The free blocks of a valid page are exactly the maximal gaps between its used blocks. */
    lemma FreePartition()
      requires Valid()
      ensures Partition(addr, addr + size, used, free) && Coalesced(free)
    {
      hide UsedSide, MSide, SSide, Partition, Coalesced, Quantized;
    }

    /** A page with nothing in use has one free block, which spans it: what its destructor asserts. */
    lemma EmptyPage()
      requires Valid() && used == map[] && 0 < size && size % blockAlign == 0 && 0 < blockAlign
      ensures usedList == null && freeMList != null && freeMList.nextFreeM == null && freeMList.prevFreeM == null
      ensures freeMList.addr == addr && freeMList.size == size && M.Keys == {freeMList}
    {
      hide Tidy, Partition, Coalesced, SSide, UsedSide;
      OpenValid();
      FreePartition();
      Whole(addr, size, blockAlign);
      FreeDetermined(addr, addr + size, used, free, map[addr := size]);
      NothingUsed();
      OneBlock(map[addr := size]);
    }

    lemma NothingUsed()
      requires UsedSide()
      ensures used == map[] ==> usedList == null
    {
      if usedList != null {
        assert usedList in U && usedList.addr in usedAt;
      }
    }

    lemma OneBlock(m: Intervals.Blocks)
      requires MSide() && free == m == map[addr := size]
      ensures freeMList != null && freeMList.nextFreeM == null && freeMList.prevFreeM == null
      ensures freeMList.addr == addr && freeMList.size == size && M.Keys == {freeMList}
    {
      hide MLinks, MSorted, Clean, Finds, Sized;
      var b := OnlyKey(m);
      OnlyLink(b);
    }

    lemma OnlyKey(m: Intervals.Blocks) returns (b: Block)
      requires Finds(freeAt, M.Keys) && Sized(freeAt, free) && free == m == map[addr := size]
      ensures M.Keys == {b} && b.addr == addr && b.size == size
    {
      assert addr in freeAt;
      b := freeAt[addr];
      assert forall c <- M.Keys :: c.addr in freeAt && freeAt[c.addr] == c;
    }

    lemma OnlyLink(b: Block)
      requires MLinks() && M.Keys == {b}
      ensures freeMList == b && b.nextFreeM == null && b.prevFreeM == null
    {
      assert b in M && IsNext(M, b, b.nextFreeM) && IsPrev(M, b, b.prevFreeM);
    }

    lemma OpenValid()
      requires Valid()
      ensures UsedSide() && MSide() && SSide() && S.Keys == M.Keys && U.Keys !! M.Keys && Tidy(used, free)
      ensures usedAt.Values <= U.Keys && freeAt.Values <= M.Keys
      ensures Repr() == {this} + U.Keys + M.Keys
    {
    }

    lemma CloseValid()
      requires UsedSide() && MSide() && SSide() && S.Keys == M.Keys && U.Keys !! M.Keys && Tidy(used, free)
      ensures Valid() && Repr() == {this} + U.Keys + M.Keys
    {
      UsedValues();
      MValues();
      hide UsedSide, MSide, SSide, Tidy;
    }

    lemma MValues()
      requires MSide()
      ensures freeAt.Values <= M.Keys
    {
    }

    /** Takes size bytes off the free side, splitting the block when something is left. */
    method Carve(size: nat, freeBlock: Block)
      requires MSide() && SSide() && S.Keys == M.Keys && freeBlock in M
      requires freeBlock.addr in free && free[freeBlock.addr] == freeBlock.size && 0 < size <= freeBlock.size
      requires size < freeBlock.size ==> freeBlock.addr + size !in free && 0 < blockAlign <= freeBlock.size - size
      requires 0 < blockAlign
      modifies `freeMList, `M, M.Keys`nextFreeM, M.Keys`prevFreeM, `freeAt, `free, freeBlock`size
      modifies `freeSList, `S, S.Keys`nextFreeS, S.Keys`prevFreeS
      ensures MSide() && SSide() && S.Keys == M.Keys
      ensures freeBlock.size == size && free == Rest(old(free), freeBlock.addr, size)
      ensures freeBlock !in M && fresh(M.Keys - old(M).Keys)
    {
      hide *;
      DetachFree(freeBlock);
      var extraBytes := freeBlock.size - size;
      if extraBytes >= blockAlign {
        SplitOff(freeBlock, size);
      }
      RestIs(old(free), freeBlock.addr, size);
    }

    /** Moves size bytes of a free block to the used list. */
    method Allocate(size: nat, freeBlock: Block)
      requires Valid() && freeBlock in M && 0 < size <= freeBlock.size && size % blockAlign == 0
      modifies Repr() - {this}, `usedList, `freeSList, `freeMList, `U, `S, `M, `usedAt, `freeAt, `used, `free
      ensures Valid() && fresh(Repr() - old(Repr()))
      ensures used == old(used)[freeBlock.addr := size]
    {
      hide *;
      OpenValid();
      FreeBlockFacts(freeBlock);
      TakeTidy(freeBlock.addr, size);
      Carve(size, freeBlock);
      AddUsed(freeBlock);
      CloseValid();
    }

    // ---- release ----

    /** Unlinks the M-list successor of a block; its own links are left stale, as it is deleted. */
    method UnlinkNextM(b: Block)
      requires MLinks() && b in M && b.nextFreeM != null
      modifies `M, M.Keys`prevFreeM, b`nextFreeM
      ensures M == old(M) - {old(b.nextFreeM)} && MLinks() && old(b.nextFreeM) in old(M) && b != old(b.nextFreeM)
    {
      hide IsNext, IsPrev, IsFirst, Injective;
      ghost var x := b.nextFreeM;
      NextPrev(M, b, x);
      ghost var xn := x.nextFreeM;
      Neighbours(M, x, xn, b);
      RemoveFirst(M, x, freeMList, xn, b);
      b.nextFreeM := b.nextFreeM.nextFreeM;
      if b.nextFreeM != null {
        b.nextFreeM.prevFreeM := b;
      }
      M := M - {x};
      RemoveInjective(old(M), x);
      forall c <- M ensures IsNext(M, c, c.nextFreeM) && IsPrev(M, c, c.prevFreeM) {
        assert c in old(M);
        RemoveNext(old(M), x, c, old(c.nextFreeM), xn, b);
        RemovePrev(old(M), x, c, old(c.prevFreeM), xn, b);
      }
    }

    /** Merges a free block with its M-list successor, which starts where it ends. */
    method AbsorbNext(b: Block, ghost n: Block)
      requires MSide() && b in M && n == b.nextFreeM && b.addr + b.size == n.addr
      modifies `M, M.Keys`prevFreeM, b`nextFreeM, b`size, `freeAt, `free
      ensures MSide() && M == old(M) - {n}
      ensures free == Join(old(free), b.addr)
    {
      hide MLinks, Finds, Sized, Join;
      AbsorbFacts(b, n);
      ghost var at, m := freeAt - {n.addr} - {b.addr}, free - {n.addr} - {b.addr};
      b.size := b.size + b.nextFreeM.size;
      UnlinkNextM(b);
      Added(at, old(M).Keys - {n} - {b}, m, b);
      JoinIs(free, b.addr, n.addr);
      freeAt, free := at[b.addr := b], m[b.addr := b.size];
      assert M.Keys == old(M).Keys - {n} - {b} + {b};
    }

    lemma AbsorbFacts(b: Block, n: Block)
      requires MSide() && b in M && n == b.nextFreeM
      ensures n in M && n != b && n.addr != b.addr
      ensures b.addr in free && free[b.addr] == b.size && n.addr in free && free[n.addr] == n.size
      ensures Finds(freeAt - {n.addr} - {b.addr}, M.Keys - {n} - {b})
      ensures Sized(freeAt - {n.addr} - {b.addr}, free - {n.addr} - {b.addr})
      ensures b !in (freeAt - {n.addr} - {b.addr}).Values
    {
      NextPrev(M, b, n);
      Removed(freeAt, M.Keys, free, n);
      Removed(freeAt - {n.addr}, M.Keys - {n}, free - {n.addr}, b);
    }

    /** The M-list neighbours of a block, in terms of addresses. */
    lemma MNeighbours(b: Block)
      requires MSide() && b in M
      ensures b.addr in free && free[b.addr] == b.size
      ensures var p := b.prevFreeM;
        if p == null then forall f <- free :: b.addr <= f
        else
          && p in M && p.addr in free && free[p.addr] == p.size && p.addr < b.addr
          && forall f <- free :: f <= p.addr || b.addr <= f
      ensures var n := b.nextFreeM;
        if n == null then forall f <- free :: f <= b.addr
        else
          && n in M && n.addr in free && free[n.addr] == n.size && b.addr < n.addr
          && forall f <- free :: f <= b.addr || n.addr <= f
    {
      var p, n := b.prevFreeM, b.nextFreeM;
      assert IsPrev(M, b, p) && IsNext(M, b, n);
      forall f <- free
        ensures p == null ==> b.addr <= f
        ensures p != null ==> f <= p.addr || b.addr <= f
        ensures n == null ==> f <= b.addr
        ensures n != null ==> f <= b.addr || n.addr <= f
      {
        assert M[freeAt[f]] == f as real;
      }
    }

    /** Either b's M-list predecessor ends where b starts, or no free block does. */
    lemma LeftTouch(b: Block)
      requires MSide() && b in M && Partition(addr, addr + size, used, free)
      ensures var p := b.prevFreeM;
        if p != null && p.addr + p.size == b.addr
        then p in M && p.addr in free && free[p.addr] == p.size && forall f <- free | f + free[f] == b.addr :: f == p.addr
        else NoLeft(free, b.addr)
      ensures b.addr in free && free[b.addr] == b.size && Positive(free)
    {
      MNeighbours(b);
      FreeApart(addr, addr + size, used, free);
      hide MSide, Partition;
      if b.prevFreeM != null {
        LastBefore(free, b.prevFreeM.addr, b.addr);
      }
    }

    /** b touches a free block on its right exactly when that block is its M-list successor. */
    lemma RightTouch(b: Block)
      requires MSide() && b in M && Partition(addr, addr + size, used, free)
      ensures b.addr in free && free[b.addr] == b.size && Positive(free)
      ensures Joinable(free, b.addr) <==> b.nextFreeM != null && b.addr + b.size == b.nextFreeM.addr
      ensures b.nextFreeM != null ==> b.nextFreeM in M && b.nextFreeM != b
    {
      MNeighbours(b);
      FreeApart(addr, addr + size, used, free);
      hide MSide, Partition;
      if b.nextFreeM != null {
        FirstAfter(free, b.addr, b.nextFreeM.addr);
      }
    }

    /** A release in progress: b is on the M-list only and may still touch its neighbours. */
    ghost predicate Pending(b: Block)
      reads `freeMList, `M, `freeAt, `free, M.Keys`nextFreeM, M.Keys`prevFreeM, freeAt.Values`size
      reads M.Keys`nextUsed, M.Keys`prevUsed, `used
      reads `freeSList, `S, S.Keys`nextFreeS, S.Keys`prevFreeS, S.Keys`size
    {
      && MSide() && SSide() && b in M && S.Keys == M.Keys - {b}
      && Partition(addr, addr + size, used, free) && Quantized(free, blockAlign) && CoalescedBut(free, b.addr)
    }

    static ghost predicate SortedBy(k: Ranks, sizes: map<Block, nat>) {
      k.Keys <= sizes.Keys && forall b <- k, c <- k | k[b] < k[c] :: sizes[b] >= sizes[c]
    }

    lemma Restore(k: Ranks, sizes: map<Block, nat>)
      requires SLinks() && SortedBy(k, sizes)
      requires forall b <- S :: b in k && S[b] == k[b] && b in sizes && b.size == sizes[b]
      ensures SSide()
    {
    }

    /** Merges p with its M-list successor b; p is on the S-list, b is not. */
    method AbsorbPrev(b: Block, p: Block)
      requires MSide() && SLinks() && p in M && p.nextFreeM == b && p.addr + p.size == b.addr
      modifies `M, M.Keys`prevFreeM, p`nextFreeM, p`size, `freeAt, `free
      ensures MSide() && SLinks() && M == old(M) - {b} && M.Keys == old(M).Keys - {b}
      ensures free == Join(old(free), p.addr)
    {
      hide *;
      AbsorbNext(p, b);
    }

    /** Merges the left neighbour p, which ends where b starts, with b. */
    method MergeLeft(b: Block, p: Block)
      requires MSide() && SSide() && b in M && S.Keys == M.Keys - {b}
      requires p == b.prevFreeM && p in M && p.addr + p.size == b.addr
      modifies `M, M.Keys`prevFreeM, p`nextFreeM, p`size, `freeAt, `free
      modifies `freeSList, `S, S.Keys`nextFreeS, S.Keys`prevFreeS
      ensures MSide() && SSide() && M == old(M) - {b} && p in M && S.Keys == M.Keys - {p}
      ensures free == Join(old(free), p.addr)
    {
      hide *;
      ghost var sizes := LeftFacts(b, p);
      AbsorbPrev(b, p);
      RemoveFreeSList(p);
      assert S.Keys == old(S).Keys - {p};
      Restore(old(S), sizes);
    }

    lemma LeftFacts(b: Block, p: Block) returns (sizes: map<Block, nat>)
      requires MSide() && SSide() && b in M && S.Keys == M.Keys - {b} && p == b.prevFreeM && p in M
      ensures p.nextFreeM == b && p != b && SLinks() && SortedBy(S, sizes)
      ensures forall c <- S :: c in sizes && c.size == sizes[c]
    {
      sizes := map c <- S :: c.size;
      PrevNext(M, b, p, p.nextFreeM);
    }

    /** Merges b with the right neighbour n, which starts where b ends. */
    method MergeRight(b: Block, n: Block)
      requires MSide() && SSide() && b in M && S.Keys == M.Keys - {b}
      requires n == b.nextFreeM && n in M && n != b && b.addr + b.size == n.addr
      modifies `M, M.Keys`prevFreeM, b`nextFreeM, b`size, `freeAt, `free
      modifies `freeSList, `S, S.Keys`nextFreeS, S.Keys`prevFreeS
      ensures MSide() && SSide() && M == old(M) - {n} && b in M && S.Keys == M.Keys - {b}
      ensures free == Join(old(free), b.addr)
    {
      hide *;
      AbsorbNext(b, n);
      assert M.Keys == old(M).Keys - {n};
      TakeS(n);
      assert S.Keys == old(S).Keys - {n};
    }

    lemma OpenPending(b: Block)
      requires Pending(b)
      ensures MSide() && SSide() && b in M && S.Keys == M.Keys - {b}
      ensures Partition(addr, addr + size, used, free) && Quantized(free, blockAlign) && CoalescedBut(free, b.addr)
    {
    }

    lemma ClosePending(b: Block)
      requires MSide() && SSide() && b in M && S.Keys == M.Keys - {b}
      requires Partition(addr, addr + size, used, free) && Quantized(free, blockAlign) && CoalescedBut(free, b.addr)
      ensures Pending(b)
    {
      hide MSide, SSide, Partition, Quantized, CoalescedBut;
    }

    lemma LeftMerged(l: nat, a: nat)
      requires Partition(addr, addr + size, used, free) && Quantized(free, blockAlign) && CoalescedBut(free, a)
      requires Positive(free) && l in free && a in free && l + free[l] == a && forall f <- free | f + free[f] == a :: f == l
      ensures var j := Join(free, l); Partition(addr, addr + size, used, j) && Quantized(j, blockAlign)
      ensures var j := Join(free, l); CoalescedBut(j, l) && NoLeft(j, l)
    {
      hide Tiles, Partition, Join, Quantized, CoalescedBut, NoLeft;
      LeftJoined(free, l);
      Merge(addr, addr + size, used, free, l);
      MergeQuantized(free, l, blockAlign);
    }

    /** The left merge of a release: afterwards no free block ends where the result starts. */
    method CoalesceLeft(usedBlock: Block) returns (merged: Block)
      requires Pending(usedBlock)
      modifies `M, M.Keys`prevFreeM, M.Keys`nextFreeM, M.Keys`size, `freeAt, `free
      modifies `freeSList, `S, S.Keys`nextFreeS, S.Keys`prevFreeS
      ensures Pending(merged) && NoLeft(free, merged.addr) && M.Keys <= old(M).Keys
    {
      hide *;
      merged := usedBlock;
      OpenPending(usedBlock);
      LeftTouch(usedBlock);
      if usedBlock.prevFreeM != null {
        var prevAddr := usedBlock.prevFreeM.addr + usedBlock.prevFreeM.size;
        if usedBlock.addr == prevAddr {
          var prevBlock := usedBlock.prevFreeM;
          LeftMerged(prevBlock.addr, usedBlock.addr);
          MergeLeft(usedBlock, prevBlock);
          merged := prevBlock;
          ClosePending(merged);
        }
      }
    }

    lemma RightMerged(a: nat)
      requires Partition(addr, addr + size, used, free) && Quantized(free, blockAlign) && CoalescedBut(free, a)
      requires Positive(free) && a in free && NoLeft(free, a)
      ensures var j := Join(free, a);
        Partition(addr, addr + size, used, j) && Quantized(j, blockAlign) && Coalesced(j)
    {
      hide Tiles, Partition, Join, Quantized, CoalescedBut, Coalesced, NoLeft;
      RightJoined(free, a);
      if Joinable(free, a) {
        Merge(addr, addr + size, used, free, a);
        MergeQuantized(free, a, blockAlign);
      } else {
        JoinNothing(free, a);
      }
    }

    /** The right merge of a release: afterwards no two free blocks touch. */
    method CoalesceRight(usedBlock: Block)
      requires Pending(usedBlock) && NoLeft(free, usedBlock.addr)
      modifies `M, M.Keys`prevFreeM, M.Keys`nextFreeM, M.Keys`size, `freeAt, `free
      modifies `freeSList, `S, S.Keys`nextFreeS, S.Keys`prevFreeS
      ensures MSide() && SSide() && usedBlock in M && S.Keys == M.Keys - {usedBlock}
      ensures Partition(addr, addr + size, used, free) && Quantized(free, blockAlign) && Coalesced(free)
      ensures M.Keys <= old(M).Keys
    {
      hide *;
      OpenPending(usedBlock);
      RightTouch(usedBlock);
      RightMerged(usedBlock.addr);
      if usedBlock.nextFreeM != null {
        var nextAddr := usedBlock.addr + usedBlock.size;
        if usedBlock.nextFreeM.addr == nextAddr {
          MergeRight(usedBlock, usedBlock.nextFreeM);
          return;
        }
      }
      JoinNothing(free, usedBlock.addr);
    }

    lemma GiveTidy(a: nat)
      requires Tidy(used, free) && a in used
      ensures a !in free && Quantized(used - {a}, blockAlign)
      ensures var f := free[a := used[a]];
        Partition(addr, addr + size, used - {a}, f) && Quantized(f, blockAlign) && CoalescedBut(f, a)
    {
      Give(addr, addr + size, used, free, a);
    }

    lemma UsedValues()
      requires UsedSide()
      ensures usedAt.Values <= U.Keys
    {
    }

    lemma UsedBlockFacts(b: Block)
      requires UsedSide() && b in U
      ensures b.addr in used && used[b.addr] == b.size
    {
    }

    /** Moves a block from the used list to the M-list. */
    method BeginRelease(b: Block)
      requires Valid() && b in U
      modifies `usedList, `U, U.Keys`nextUsed, U.Keys`prevUsed, `usedAt, `used
      modifies `freeMList, `M, M.Keys`nextFreeM, M.Keys`prevFreeM, b`nextFreeM, b`prevFreeM, `freeAt, `free
      ensures UsedSide() && Pending(b) && U.Keys == old(U).Keys - {b} && U.Keys !! M.Keys
      ensures M.Keys == old(M).Keys + {b} && b.addr in old(used) && used == old(used) - {b.addr}
      ensures Quantized(used, blockAlign) && usedAt.Values <= U.Keys
    {
      hide *;
      OpenValid();
      UsedBlockFacts(b);
      GiveTidy(b.addr);
      TakeUsed(b);
      UsedValues();
      AddM(b);
      assert U.Keys == old(U).Keys - {b};
      ClosePending(b);
    }

    /** The merges of a release, and the insertion of the result into the S-list. */
    method FinishRelease(usedBlock: Block)
      requires Pending(usedBlock)
      modifies `M, M.Keys`prevFreeM, M.Keys`nextFreeM, M.Keys`size, `freeAt, `free
      modifies `freeSList, `S, M.Keys`nextFreeS, M.Keys`prevFreeS
      ensures MSide() && SSide() && S.Keys == M.Keys && M.Keys <= old(M).Keys
      ensures Partition(addr, addr + size, used, free) && Quantized(free, blockAlign) && Coalesced(free)
    {
      hide *;
      OpenPending(usedBlock);
      var merged := CoalesceLeft(usedBlock);
      OpenPending(merged);
      CoalesceRight(merged);
      AddS(merged);
    }

    /** Returns a used block to the free lists and merges it with the free blocks it touches. */
    method Release(usedBlock: Block)
      requires Valid() && usedBlock in U
      modifies Repr() - {this}, `usedList, `freeSList, `freeMList, `U, `S, `M, `usedAt, `freeAt, `used, `free
      ensures Valid() && Repr() <= old(Repr())
      ensures usedBlock.addr in old(used) && used == old(used) - {usedBlock.addr}
    {
      hide *;
      OpenValid();
      BeginRelease(usedBlock);
      FinishRelease(usedBlock);
      CloseTidy();
      CloseValid();
    }
  }
}
