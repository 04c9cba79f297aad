/** The heap of one kernel: a growing region of virtual pages, handed out from the bottom up. */
module Heap {
  import opened Base
  import opened Bits
  import opened Memory
  import opened Sv32
  import opened Translation
  import opened PageTables
  import opened Mappings
  import opened AddressSpace
  import opened Copies
  import opened Bump

  const HEAP_FLAGS: nat := R + W + U + A + D

  lemma HeapFlagsAre()
    ensures Requests(HEAP_FLAGS, true, false)
  {
    hide Bit;
    FlagValues(HEAP_FLAGS);
  }

  lemma HeapFlagsReadable()
    ensures Bit(HEAP_FLAGS, 1)
  {
    hide Bit;
    HeapFlagsAre();
  }

  /** The pages from page first on are mapped to the frames, in order; they can be read and written, but not executed. */
  ghost predicate Backed(m: Mem, r: nat, first: nat, frames: seq<nat>)
    requires IsFrame(r)
  {
    && |frames| <= PAGES && (forall k | 0 <= k < |frames| :: Target(m, r, PageNo(first, k)) == Some(frames[k]))
    && Permitted(m, r, first, |frames|, true, false)
  }

  /** Consecutive ranges of offsets below end. */
  ghost predicate Ascending(ranges: seq<(nat, nat)>, end: nat) {
    && (forall k | 0 <= k < |ranges| :: 0 < ranges[k].1 && ranges[k].0 + ranges[k].1 <= end)
    && forall j, k | 0 <= j < k < |ranges| :: ranges[j].0 + ranges[j].1 <= ranges[k].0
  }

  lemma MoreRanges(ranges: seq<(nat, nat)>, end: nat, size: nat)
    requires Ascending(ranges, end) && 0 < size
    ensures Ascending(ranges + [(end, size)], end + size)
  {
  }

  /** Ranges that were handed out share no address, even where the heap runs around the end of the address space. */
  lemma RangesDisjoint(ranges: seq<(nat, nat)>, end: nat, base: nat, j: nat, k: nat, x: nat, y: nat)
    requires Ascending(ranges, end) && end <= U32 && j < k < |ranges| && x < ranges[j].1 && y < ranges[k].1
    ensures (base + ranges[j].0 + x) % U32 != (base + ranges[k].0 + y) % U32
  {
    ModApart(base + ranges[j].0 + x, base + ranges[k].0 + y);
  }

  /** Pages that were unmapped do not run into the mapped ones around the end of the address space. */
  lemma BackedFits(m: Mem, r: nat, first: nat, frames: seq<nat>, n: nat)
    requires IsFrame(r) && first < PAGES && n <= PAGES && Backed(m, r, first, frames)
    requires Unmapped(m, r, PageNo(first, |frames|), n)
    ensures |frames| + n <= PAGES
  {
    hide Entry, PtePa, IsFrame;
    if 0 < |frames| {
      assert Target(m, r, PageNo(first, 0)) == Some(frames[0]) && PageNo(first, 0) == first;
      assert Place(PageNo(first, |frames|), first) == PAGES - |frames|;
    }
  }

  /** The heap's pages and the new pages after them. */
  lemma BackedMore(l: Layout, s: Space, s': Space, r: nat, first: nat, frames: seq<nat>, more: seq<nat>)
    requires IsRoot(s, r) && IsFrame(r) && first < PAGES && Backed(s.mem, r, first, frames)
    requires NewPages(l, s, s', r, PageNo(first, |frames|), more)
    requires Permitted(s'.mem, r, PageNo(first, |frames|), |more|, true, false)
    ensures Backed(s'.mem, r, first, frames + more) && Backed(s'.mem, r, first, frames) && IsRoot(s', r)
  {
    hide Entry, PtePa, IsFrame, IsRoot, Grown, Counted, Permitted, Extends;
    WroteUnmapped(s, s', r, PageNo(first, |frames|), more);
    BackedFits(s.mem, r, first, frames, |more|);
    var next := PageNo(first, |frames|);
    forall k | 0 <= k < |frames + more| ensures Target(s'.mem, r, PageNo(first, k)) == Some((frames + more)[k]) {
      assert WroteAt(s, s', r, next, more, r, PageNo(first, k));
    }
    forall k | 0 <= k < |frames| ensures Target(s'.mem, r, PageNo(first, k)) == Some(frames[k]) {
      assert (frames + more)[k] == frames[k];
    }
    RootGrown(l, s, s', r, next, more);
    NewPagesExtend(l, s, s', r, next, more);
    PermittedKept(s, s', r, r, first, |frames|, true, false);
    PermittedBoth(s'.mem, r, first, |frames|, |more|, true, false);
  }

  lemma LeakedBacked(l: Layout, s: Space, s': Space, f: nat, r: nat, first: nat, frames: seq<nat>)
    requires Leaked(l, s, s', f) && IsRoot(s, r) && IsFrame(r) && Backed(s.mem, r, first, frames)
    ensures IsRoot(s', r) && Backed(s'.mem, r, first, frames)
  {
    hide Entry, PtePa, IsFrame;
  }

  lemma LastPage(base: nat, n: nat)
    requires base < U32
    ensures (base + n * PAGE_SIZE) % U32 < U32 && (base + n * PAGE_SIZE) % U32 / PAGE_SIZE == PageNo(base / PAGE_SIZE, n)
  {
    PageAt(base, n);
  }

  /** The byte at offset o of a heap whose base need not be aligned lies on one of the heap's pages, or on the page behind
    them. On a page of the heap it translates; an aligned heap has no other bytes. */
  lemma BackedByte(l: Layout, s: Space, r: nat, base: nat, frames: seq<nat>, o: nat)
    requires Inv(l, s) && IsRoot(s, r) && IsFrame(r) && base < U32
    requires Backed(s.mem, r, base / PAGE_SIZE, frames) && o < |frames| * PAGE_SIZE
    ensures var x := base % PAGE_SIZE + o;
      if x < |frames| * PAGE_SIZE then
        && Walk(s.mem, r, (base + o) % U32) == Pa(frames[x / PAGE_SIZE] + x % PAGE_SIZE)
        && (base + o) % U32 / PAGE_SIZE < PAGES && PermittedAt(s.mem, r, (base + o) % U32 / PAGE_SIZE, true, false)
      else Walk(s.mem, r, (base + o) % U32).Pa? <==> Target(s.mem, r, PageNo(base / PAGE_SIZE, |frames|)).Some?
  {
    hide Entry, PtePa, IsFrame, IsRoot, Inv, Walk;
    var x := base % PAGE_SIZE + o;
    OffsetKept(base, o);
    WalkIsTarget(l, s, r, (base + o) % U32);
  }

  lemma OffsetKept(base: nat, o: nat)
    requires base < U32
    ensures var x := base % PAGE_SIZE + o;
      (base + o) % U32 / PAGE_SIZE == PageNo(base / PAGE_SIZE, x / PAGE_SIZE) && (base + o) % U32 % PAGE_SIZE == x % PAGE_SIZE
  {
    var x := base % PAGE_SIZE + o;
    var q, r := base / PAGE_SIZE + x / PAGE_SIZE, x % PAGE_SIZE;
    var k, m := q / PAGES, q % PAGES;
    assert base + o == q * PAGE_SIZE + r && q == k * PAGES + m;
    DivModUnique(base + o, U32, k, m * PAGE_SIZE + r);
    DivModUnique(m * PAGE_SIZE + r, PAGE_SIZE, m, r);
  }

  /** The pages behind a heap keep their targets while any page table grows. */
  lemma BackedKept(s: Space, s': Space, r: nat, q: nat, first: nat, frames: seq<nat>)
    requires IsRoot(s, r) && IsFrame(r) && Backed(s.mem, r, first, frames) && Extends(s, s', q)
    ensures IsRoot(s', r) && Backed(s'.mem, r, first, frames)
  {
    hide Entry, PtePa, IsFrame, IsRoot, PageNo, Permitted;
    PermittedKept(s, s', q, r, first, |frames|, true, false);
    forall k | 0 <= k < |frames| ensures Target(s'.mem, r, PageNo(first, k)) == Some(frames[k]) {
      assert ExtendsAt(s, s', q, r, PageNo(first, k));
    }
  }

  /** After pages were mapped from page next on, that page is mapped if it was before or if any page was. */
  lemma NextMapped(l: Layout, s: Space, s': Space, r: nat, next: nat, more: seq<nat>, lost: nat)
    requires IsRoot(s, r) && IsFrame(r) && next < PAGES && PartlyNew(l, s, s', r, next, more, lost)
    ensures Target(s'.mem, r, next).Some? <==> Target(s.mem, r, next).Some? || more != []
  {
    hide Entry, PtePa, IsFrame, IsRoot, Grown, Counted;
    var mid: Space :| NewPages(l, s, mid, r, next, more) && Leaked(l, mid, s', lost);
    assert WroteAt(s, mid, r, next, more, r, next);
  }

  lemma NextWasFree(l: Layout, s: Space, s': Space, r: nat, next: nat, more: seq<nat>)
    requires IsRoot(s, r) && IsFrame(r) && next < PAGES && NewPages(l, s, s', r, next, more) && more != []
    ensures Target(s.mem, r, next) == None
  {
    hide Entry, PtePa, IsFrame, IsRoot, Grown, Counted;
    assert WroteAt(s, s', r, next, more, r, next);
  }

  /** Two addresses of one page table never have the same place. */
  lemma WalksApart(l: Layout, s: Space, r: nat, a: nat, b: nat)
    requires Inv(l, s) && IsRoot(s, r) && IsFrame(r) && a < U32 && b < U32 && a != b
    requires Walk(s.mem, r, a).Pa? && Walk(s.mem, r, b).Pa?
    ensures Walk(s.mem, r, a) != Walk(s.mem, r, b)
  {
    hide Inv, IsRoot, IsFrame, Walk;
    if Walk(s.mem, r, a) == Walk(s.mem, r, b) {
      assert After(a, 0) == a && After(b, 0) == b;
      BytesApart(l, s, r, a, 0, r, b, 0);
    }
  }

  datatype HeapResult = Given(va: nat) | Failed(why: MapOutcome)

  class HeapManager {
    const aspace: AddressSpaceManager
    const top: nat
    const vm: BumpAllocator
    ghost var frames: seq<nat>
    ghost var ranges: seq<(nat, nat)>

    /** The heap's own part: whole pages, of which the ranges handed out are the lower end. */
    ghost predicate Region()
      reads this, vm
    {
      && vm.Valid() && vm.growable == Some(true) && vm.baseAddress < U32
      && vm.capacity == |frames| * PAGE_SIZE && |frames| <= PAGES
      && vm.nextAddress - vm.baseAddress >= 0 && Ascending(ranges, vm.nextAddress - vm.baseAddress)
    }

    ghost predicate Valid()
      reads this, vm, aspace, aspace.scratchpad, aspace.holeList, aspace.pageAllocator, aspace.pageAllocator.Repr
    {
      && Region() && aspace.Valid() && vm !in aspace.pageAllocator.Repr && this !in aspace.pageAllocator.Repr
      && IsRoot(aspace.Sp(), top) && IsFrame(top) && Backed(aspace.Sp().mem, top, vm.baseAddress / PAGE_SIZE, frames)
    }

    constructor (aspace: AddressSpaceManager, top: nat, baseVa: nat)
      requires aspace.Valid() && IsRoot(aspace.Sp(), top) && baseVa < U32
      ensures Valid() && this.aspace == aspace && this.top == top && fresh(vm) && frames == [] && ranges == []
      ensures vm.baseAddress == baseVa && vm.nextAddress == baseVa
    {
      hide Inv, AddressSpaceManager.AllocSide, AddressSpaceManager.HolesOk, Entry, PtePa;
      this.aspace, this.top := aspace, top;
      vm := new BumpAllocator();
      frames, ranges := [], [];
      new;
      var ok := vm.SetGrowable(true);
      vm.InitBaseAddress(baseVa);
      vm.InitCapacity(0);
    }
  
    lemma Opened()
      requires Valid()
      ensures Region() && aspace.Valid() && vm !in aspace.pageAllocator.Repr && this !in aspace.pageAllocator.Repr
      ensures IsRoot(aspace.Sp(), top) && IsFrame(top) && |frames| <= PAGES
      ensures PageNo(vm.baseAddress / PAGE_SIZE, |frames|) < PAGES
      ensures vm.baseAddress < U32 && vm.baseAddress / PAGE_SIZE < PAGES && vm.capacity == |frames| * PAGE_SIZE
      ensures Backed(aspace.Sp().mem, top, vm.baseAddress / PAGE_SIZE, frames)
    {
      hide AddressSpaceManager.Valid, AddressSpaceManager.Sp, Entry, PtePa, IsRoot;
    }

    lemma Closed()
      requires Region() && aspace.Valid() && vm !in aspace.pageAllocator.Repr && this !in aspace.pageAllocator.Repr
      requires IsRoot(aspace.Sp(), top) && IsFrame(top) && vm.baseAddress / PAGE_SIZE < PAGES
      requires Backed(aspace.Sp().mem, top, vm.baseAddress / PAGE_SIZE, frames)
      ensures Valid()
    {
      hide AddressSpaceManager.Valid, AddressSpaceManager.Sp, Entry, PtePa, IsRoot;
    }

    /** The page behind the heap is mapped. */
    ghost predicate Blocked()
      reads this, vm, aspace, aspace.scratchpad, aspace.pageAllocator
    {
      IsFrame(top) && Target(aspace.Sp().mem, top, PageNo(vm.baseAddress / PAGE_SIZE, |frames|)).Some?
    }

    lemma BlockedIs()
      requires IsFrame(top)
      ensures Blocked() <==> Target(aspace.Sp().mem, top, PageNo(vm.baseAddress / PAGE_SIZE, |frames|)).Some?
    {
      hide Entry, PtePa, AddressSpaceManager.Sp;
    }

    /** A heap stays right while the page table of another kernel, q, changes from s on. */
    lemma StillValid(s: Space, q: nat)
      requires Region() && aspace.Valid() && vm !in aspace.pageAllocator.Repr && this !in aspace.pageAllocator.Repr
      requires IsRoot(s, top) && IsFrame(top) && Backed(s.mem, top, vm.baseAddress / PAGE_SIZE, frames)
      requires Extends(s, aspace.Sp(), q)
      ensures Valid()
    {
      hide AddressSpaceManager.Valid, AddressSpaceManager.Sp, Entry, PtePa, IsRoot, Extends, Backed, IsFrame;
      BackedKept(s, aspace.Sp(), top, q, vm.baseAddress / PAGE_SIZE, frames);
    }

    /** The same when the page table of another kernel, q, is freed. */
    lemma StillValidFree(s: Space, q: nat)
      requires Region() && aspace.Valid() && vm !in aspace.pageAllocator.Repr && this !in aspace.pageAllocator.Repr
      requires Inv(aspace.Lay(), s) && IsRoot(s, top) && IsRoot(s, q) && q != top && aspace.Sp() == DropRoot(s, q)
      requires IsFrame(top) && Backed(s.mem, top, vm.baseAddress / PAGE_SIZE, frames)
      ensures Valid()
    {
      hide AddressSpaceManager.Valid, AddressSpaceManager.Sp, Entry, PtePa, IsRoot, IsFrame, Inv, Family;
      FreeKeepsOthers(aspace.Lay(), s, q, top);
    }

    /** Where the byte at offset o of the heap is. */
    ghost function Address(o: nat): nat
      reads vm
    {
      (vm.baseAddress + o) % U32
    }

    /** Byte x of range k. */
    ghost function Offset(k: nat, x: nat): nat
      requires k < |ranges|
      reads `ranges
    {
      ranges[k].0 + x
    }

    lemma RangeInside(k: nat, x: nat)
      requires Region() && k < |ranges| && x < ranges[k].1
      ensures Offset(k, x) < |frames| * PAGE_SIZE <= U32
    {
      OpenRegion();
    }

    /** Every byte of every range that was handed out translates to its place on the heap's frames. When the base is not
      page-aligned, the bytes behind the last page translate exactly when the page behind the heap is mapped. */
    lemma RangesTranslate(k: nat, x: nat)
      requires Valid() && k < |ranges| && x < ranges[k].1
      ensures IsFrame(top) && Address(Offset(k, x)) < U32
      ensures var w, y := Walk(aspace.Sp().mem, top, Address(Offset(k, x))), vm.baseAddress % PAGE_SIZE + Offset(k, x);
        && (vm.baseAddress % PAGE_SIZE == 0 ==> w.Pa?)
        && if y < |frames| * PAGE_SIZE then
             && w == Pa(frames[y / PAGE_SIZE] + y % PAGE_SIZE) && Address(Offset(k, x)) / PAGE_SIZE < PAGES
             && PermittedAt(aspace.Sp().mem, top, Address(Offset(k, x)) / PAGE_SIZE, true, false)
           else w.Pa? <==> Blocked()
    {
      hide AddressSpaceManager.Valid, AddressSpaceManager.Sp, Entry, PtePa, IsRoot, IsFrame, Inv, Walk, Backed, Region;
      Opened();
      RangeInside(k, x);
      aspace.OpenValid();
      BlockedIs();
      BackedByte(aspace.Lay(), aspace.Sp(), top, vm.baseAddress, frames, Offset(k, x));
    }

    /** No two bytes that were handed out have the same physical address. */
    lemma RangesApart(j: nat, x: nat, k: nat, y: nat)
      requires Valid() && j < |ranges| && k < |ranges| && x < ranges[j].1 && y < ranges[k].1 && (j != k || x != y)
      requires IsFrame(top) && Walk(aspace.Sp().mem, top, Address(Offset(j, x))).Pa?
      requires Walk(aspace.Sp().mem, top, Address(Offset(k, y))).Pa?
      ensures Walk(aspace.Sp().mem, top, Address(Offset(j, x))) != Walk(aspace.Sp().mem, top, Address(Offset(k, y)))
    {
      hide AddressSpaceManager.Valid, AddressSpaceManager.Sp, Entry, PtePa, IsRoot, IsFrame, Inv, Walk, Backed, Region,
        Address, Offset;
      Opened();
      AddressesApart(j, x, k, y);
      aspace.OpenValid();
      WalksApart(aspace.Lay(), aspace.Sp(), top, Address(Offset(j, x)), Address(Offset(k, y)));
    }

    lemma AddressesApart(j: nat, x: nat, k: nat, y: nat)
      requires Region() && j < |ranges| && k < |ranges| && x < ranges[j].1 && y < ranges[k].1 && (j != k || x != y)
      ensures Address(Offset(j, x)) != Address(Offset(k, y)) && Address(Offset(j, x)) < U32 && Address(Offset(k, y)) < U32
    {
      hide Region, Offset;
      RangeInside(j, x);
      RangeInside(k, y);
      OffsetsApart(j, x, k, y);
      var o, u := Offset(j, x), Offset(k, y);
      if o < u {
        ModApart(vm.baseAddress + o, vm.baseAddress + u);
      } else {
        ModApart(vm.baseAddress + u, vm.baseAddress + o);
      }
    }

    lemma OffsetsApart(j: nat, x: nat, k: nat, y: nat)
      requires Region() && j < |ranges| && k < |ranges| && x < ranges[j].1 && y < ranges[k].1 && (j != k || x != y)
      ensures Offset(j, x) != Offset(k, y)
    {
      OpenRegion();
    }

    /** Maps n new pages behind the heap; a failure leaves the first of them, more, mapped. */
    method MapPages(n: nat) returns (r: MapOutcome, ghost more: seq<nat>, ghost lost: nat)
      requires Valid()
      modifies aspace`own, aspace.scratchpad, aspace.pageAllocator.Repr
      ensures Valid() && fresh(aspace.pageAllocator.Repr - old(aspace.pageAllocator.Repr))
      ensures Contained(aspace.Lay(), old(aspace.Sp()), aspace.Sp(), top)
      ensures r == Mapped ==> |more| == n && Backed(aspace.Sp().mem, top, vm.baseAddress / PAGE_SIZE, frames + more)
      ensures r == Mapped ==>
        NewPages(aspace.Lay(), old(aspace.Sp()), aspace.Sp(), top, PageNo(vm.baseAddress / PAGE_SIZE, |frames|), more)
      ensures r != Mapped ==>
        PartlyNew(aspace.Lay(), old(aspace.Sp()), aspace.Sp(), top, PageNo(vm.baseAddress / PAGE_SIZE, |frames|), more, lost)
      ensures r == Mapped || r == AlreadyMapped || aspace.OutOfFrames()
      ensures n <= PAGES && Unmapped(old(aspace.Sp()).mem, top, PageNo(vm.baseAddress / PAGE_SIZE, |frames|), n) ==> r != AlreadyMapped
    {
      hide *;
      Sizes();
      Opened();
      HeapFlagsReadable();
      aspace.OpenValid();
      aspace.OpenAlloc();
      aspace.LayIs();
      ghost var l, s, first := aspace.Lay(), aspace.Sp(), vm.baseAddress / PAGE_SIZE;
      ghost var next := PageNo(first, |frames|);
      var lastVa := (vm.baseAddress + vm.capacity) % U32;
      LastPage(vm.baseAddress, |frames|);
      r, more, lost := Mapped, [], 0;
      NoNewPages(l, s, top, next);
      MarkedNothing(s.mem, top, next, HEAP_FLAGS);
      HeapFlagsAre();
      for i := 0 to n
        invariant Valid() && aspace.Lay() == l && r == Mapped && |more| == i
        invariant fresh(aspace.pageAllocator.Repr - old(aspace.pageAllocator.Repr))
        invariant NewPages(l, s, aspace.Sp(), top, next, more) && Marked(aspace.Sp().mem, top, next, |more|, HEAP_FLAGS)
      {
        ghost var s1, pa := aspace.Sp(), 0;
        Opened();
        aspace.OpenValid();
        aspace.OpenAlloc();
        aspace.LayIs();
        PageAt(lastVa, i);
        NewPagesWrote(l, s, s1, top, next, more);
        if n <= PAGES {
          NotMappedYet(s, s1, top, next, more, n, 0);
          NoOffset(PageNo(next, i));
        }
        var va := (lastVa + i * PAGE_SIZE) % U32;
        r, pa := aspace.AllocateOneVmPage(va, top, HEAP_FLAGS);
        aspace.LayIs();
        if r != Mapped {
          LeakedBacked(l, s1, aspace.Sp(), pa, top, first, frames);
          lost := pa;
          PageFailed(l, s, s1, aspace.Sp(), top, next, more, pa);
          PartlyNewContained(l, s, aspace.Sp(), top, next, more, pa);
          Closed();
          return;
        }
        PageDone(l, s, s1, aspace.Sp(), top, next, more, pa);
        ContainedRoot(l, s1, aspace.Sp(), top);
        MarkedMore(s1, aspace.Sp(), top, next, |more|, HEAP_FLAGS);
        MarkedPermits(aspace.Sp().mem, top, next, |more| + 1, HEAP_FLAGS, true, false);
        more := more + [pa];
        BackedMore(l, s, aspace.Sp(), top, first, frames, more);
        Closed();
      }
      Opened();
      MarkedPermits(aspace.Sp().mem, top, next, |more|, HEAP_FLAGS, true, false);
      BackedMore(l, s, aspace.Sp(), top, first, frames, more);
      NewPagesContained(l, s, aspace.Sp(), top, next, more);
    }
  
    predicate Fits(size: nat)
      reads vm
    {
      vm.nextAddress + size <= vm.baseAddress + vm.capacity
    }

    lemma OpenRegion()
      requires Region()
      ensures vm.Valid() && vm.growable == Some(true) && vm.baseAddress <= vm.nextAddress <= vm.baseAddress + vm.capacity < U64
      ensures vm.baseAddress < U32 && vm.capacity == |frames| * PAGE_SIZE && |frames| <= PAGES && vm.capacity <= U32
      ensures Ascending(ranges, vm.nextAddress - vm.baseAddress)
    {
    }

    lemma CloseRegion()
      requires vm.growable == Some(true) && vm.baseAddress <= vm.nextAddress <= vm.baseAddress + vm.capacity
      requires vm.baseAddress < U32 && vm.capacity == |frames| * PAGE_SIZE && |frames| <= PAGES
      requires Ascending(ranges, vm.nextAddress - vm.baseAddress)
      ensures Region()
    {
    }

    lemma GrownCapacity(n: nat, pages: nat)
      requires n + pages <= PAGES
      ensures (n * PAGE_SIZE + pages * PAGE_SIZE) % U64 == (n + pages) * PAGE_SIZE == n * PAGE_SIZE + pages * PAGE_SIZE
    {
    }

    lemma FitsIs(size: nat)
      ensures Fits(size) <==> vm.nextAddress + size <= vm.baseAddress + vm.capacity
    {
    }

    /** Maps n new pages behind the heap and adds them to it. After a failure that left pages mapped the heap is blocked, and
      a blocked heap cannot grow. */
    method Grow(n: nat) returns (r: MapOutcome, ghost more: seq<nat>)
      requires Valid()
      modifies `frames, vm`capacity, aspace`own, aspace.scratchpad, aspace.pageAllocator.Repr
      ensures Valid() && fresh(aspace.pageAllocator.Repr - old(aspace.pageAllocator.Repr))
      ensures Contained(aspace.Lay(), old(aspace.Sp()), aspace.Sp(), top)
      ensures r == Mapped ==> |more| == n && frames == old(frames) + more && vm.capacity == old(vm.capacity) + n * PAGE_SIZE
      ensures r == Mapped ==>
        NewPages(aspace.Lay(), old(aspace.Sp()), aspace.Sp(), top, PageNo(vm.baseAddress / PAGE_SIZE, |old(frames)|), more)
      ensures r != Mapped ==> frames == old(frames) && vm.capacity == old(vm.capacity)
      ensures r != Mapped ==> (Blocked() <==> old(Blocked()) || more != [])
      ensures old(Blocked()) && 0 < n ==> r != Mapped
      ensures r == Mapped || r == AlreadyMapped || aspace.OutOfFrames()
      ensures n <= PAGES && Unmapped(old(aspace.Sp()).mem, top, PageNo(vm.baseAddress / PAGE_SIZE, |old(frames)|), n) ==> r != AlreadyMapped
    {
      hide *;
      Sizes();
      Opened();
      aspace.OpenValid();
      aspace.OpenAlloc();
      aspace.LayIs();
      ghost var l, s, next, lost := aspace.Lay(), aspace.Sp(), PageNo(vm.baseAddress / PAGE_SIZE, |frames|), 0;
      BlockedIs();
      r, more, lost := MapPages(n);
      aspace.LayIs();
      if r == Mapped {
        if more != [] {
          NextWasFree(l, s, aspace.Sp(), top, next, more);
        }
        Opened();
        OpenRegion();
        BackedSize(aspace.Sp().mem, top, vm.baseAddress / PAGE_SIZE, frames + more);
        GrownCapacity(|frames|, n);
        var ok := vm.GrowCapacity(n * PAGE_SIZE);
        frames := frames + more;
        CloseRegion();
        Closed();
      } else {
        BlockedIs();
        NextMapped(l, s, aspace.Sp(), top, next, more, lost);
      }
    }

    /** The next size bytes of the heap, which first grows by whole pages when they do not fit; it grows at most once.
      A blocked heap serves only what fits. */
    method Allocate(size: nat) returns (r: HeapResult, ghost more: seq<nat>)
      requires Valid() && 0 < size && vm.nextAddress + size + PAGE_SIZE <= U64
      modifies this, vm, aspace`own, aspace.scratchpad, aspace.pageAllocator.Repr
      ensures Valid() && fresh(aspace.pageAllocator.Repr - old(aspace.pageAllocator.Repr))
      ensures Contained(aspace.Lay(), old(aspace.Sp()), aspace.Sp(), top)
      ensures vm.baseAddress == old(vm.baseAddress)
      ensures old(Fits(size)) ==> r.Given? && more == [] && aspace.Sp() == old(aspace.Sp())
      ensures r.Given? ==> r.va == old(vm.nextAddress) % U32
      ensures r.Given? ==> ranges == old(ranges) + [(old(vm.nextAddress) - vm.baseAddress, size)]
      ensures r.Given? ==> vm.nextAddress == old(vm.nextAddress) + size && frames == old(frames) + more
      ensures r.Given? && !old(Fits(size)) ==> |more| == Started(size)
      ensures r.Given? ==>
        NewPages(aspace.Lay(), old(aspace.Sp()), aspace.Sp(), top, PageNo(vm.baseAddress / PAGE_SIZE, |old(frames)|), more)
      ensures r.Failed? ==> ranges == old(ranges) && frames == old(frames) && vm.nextAddress == old(vm.nextAddress)
      ensures r.Failed? ==> (Blocked() <==> old(Blocked()) || more != [])
      ensures old(Blocked()) && !old(Fits(size)) ==> r.Failed?
      ensures r.Failed? ==> r.why == AlreadyMapped || aspace.OutOfFrames()
      ensures r.Failed? && Started(size) <= PAGES ==>
        Unmapped(old(aspace.Sp()).mem, top, PageNo(vm.baseAddress / PAGE_SIZE, |old(frames)|), Started(size)) ==> r.why != AlreadyMapped
      decreases if Fits(size) then 0 else 1
    {
      hide *;
      Sizes();
      Opened();
      OpenRegion();
      FitsIs(size);
      var addr := vm.Allocate(size);
      if addr.Some? {
        NoNewPages(aspace.Lay(), aspace.Sp(), top, PageNo(vm.baseAddress / PAGE_SIZE, |frames|));
        MoreRanges(ranges, vm.nextAddress - size - vm.baseAddress, size);
        ranges, more := ranges + [(vm.nextAddress - size - vm.baseAddress, size)], [];
        NewPagesContained(aspace.Lay(), aspace.Sp(), aspace.Sp(), top, PageNo(vm.baseAddress / PAGE_SIZE, |frames|), []);
        CloseRegion();
        Closed();
        return Given(addr.value), more;
      }
      var pagesNeeded := (size + PAGE_SIZE - 1) / PAGE_SIZE;
      Closed();
      var mapped;
      mapped, more := Grow(pagesNeeded);
      StartedIs(size);
      if mapped != Mapped {
        return Failed(mapped), more;
      }
      Opened();
      OpenRegion();
      FitsIs(size);
      aspace.OpenValid();
      aspace.OpenAlloc();
      aspace.LayIs();
      ghost var rest;
      r, rest := Allocate(size);
      aspace.LayIs();
    }

    lemma BackedSize(m: Mem, r: nat, first: nat, fs: seq<nat>)
      requires IsFrame(r) && Backed(m, r, first, fs)
      ensures |fs| <= PAGES
    {
    }

    lemma StartedIs(size: nat)
      ensures Started(size) == (size + PAGE_SIZE - 1) / PAGE_SIZE && size <= Started(size) * PAGE_SIZE
    {
    }
  }
}
