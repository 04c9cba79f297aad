/** What a kernel is given: its image, local memory, stacks and I/O, and what the hardware does with them. */
module Kernels {
  import opened Base
  import opened Bits
  import opened Memory
  import opened Sv32
  import opened Translation
  import opened PageTables
  import opened Mappings
  import opened Hardware
  import opened Uploads
  import opened ImageLayout
  import opened Stacks

  /** Where the platform keeps local memory, I/O and stacks, and how many hardware threads it has. */
  datatype Platform = Platform(lmemBase: nat, lmemSize: nat, ioBase: nat, ioSize: nat,
                               numThreads: nat, numWarps: nat, stackBase: nat, stackLog2: nat) {

    /** The regions fit 32 bits, and no page table owns a page of local memory or I/O. */
    ghost predicate Ok(l: Layout) {
      && lmemBase < U32 && lmemSize < U32 && Uncounted(l, lmemBase / PAGE_SIZE, Started(lmemSize))
      && ioBase < U32 && ioSize < U32 && Uncounted(l, ioBase / PAGE_SIZE, Started(ioSize))
      && 0 < numThreads && 0 < numWarps && stackBase < U32
      && StackBytes(numWarps, numThreads, stackLog2) <= stackBase
    }

    /** Small enough for the 32-bit loop counters of the mappings. */
    predicate Small()
      requires 0 < numThreads && 0 < numWarps
    {
      lmemSize <= U32 - PAGE_SIZE && ioSize <= U32 - PAGE_SIZE && StackBytes(numWarps, numThreads, stackLog2) <= U32 - PAGE_SIZE
    }

    /** The pages of the image, local memory, stacks and I/O: first page and number of pages. */
    ghost function Regions(minVma: nat, maxVma: nat, binSize: nat): seq<(nat, nat)>
      requires ImageOk(minVma, maxVma, binSize) && 0 < numThreads && 0 < numWarps
      requires StackBytes(numWarps, numThreads, stackLog2) <= stackBase
    {
      var bytes := StackBytes(numWarps, numThreads, stackLog2);
      [(minVma / PAGE_SIZE, ImagePages(minVma, maxVma, binSize)), (lmemBase / PAGE_SIZE, Started(lmemSize)),
       ((stackBase - bytes) / PAGE_SIZE, Started(bytes)), (ioBase / PAGE_SIZE, Started(ioSize))]
    }
  }

  /** The regions are unmapped, and pairwise apart. */
  ghost predicate Vacant(m: Mem, r: nat, regions: seq<(nat, nat)>)
    requires IsFrame(r)
  {
    && (forall i | 0 <= i < |regions| :: Unmapped(m, r, regions[i].0, regions[i].1))
    && forall i, j | 0 <= i < j < |regions| :: StretchesApart(regions[i].0, regions[i].1, regions[j].0, regions[j].1)
  }

  /** After the first region was mapped, the others are vacant still. */
  lemma VacantRest(m: Mem, m': Mem, r: nat, regions: seq<(nat, nat)>)
    requires IsFrame(r) && regions != [] && PartDone(m, m', r, regions[0].0, regions[0].1, true, false)
    ensures Vacant(m, r, regions) ==> Vacant(m', r, regions[1..])
  {
    hide PartDone, Unmapped, StretchesApart, IsFrame;
    if Vacant(m, r, regions) {
      forall i | 0 <= i < |regions[1..]| ensures Unmapped(m', r, regions[1..][i].0, regions[1..][i].1) {
        PartNext(m, m', r, regions[0].0, regions[0].1, regions[i + 1].0, regions[i + 1].1);
      }
    }
  }

  lemma VacantFails(m: Mem, m': Mem, r: nat, regions: seq<(nat, nat)>, already: bool)
    requires IsFrame(r) && regions != [] && PartDone(m, m', r, regions[0].0, regions[0].1, false, already)
    ensures Vacant(m, r, regions) ==> !already
  {
    hide Unmapped, StretchesApart, IsFrame;
  }

  // ---- what a kernel was given ----

  /** The pages of a region are mapped to themselves; they can be read and written, and not executed. */
  ghost predicate RegionMapped(m: Mem, r: nat, addr: nat, size: nat)
    requires IsFrame(r)
  {
    SelfMapped(m, r, addr / PAGE_SIZE, Started(size)) && Permitted(m, r, addr / PAGE_SIZE, Started(size), true, false)
  }

  /** The pages of the stacks lie on the kernel's own frames; they can be read and written, and not executed. */
  ghost predicate StacksMapped(l: Layout, m: Mem, r: nat, base: nat, bytes: nat)
    requires IsFrame(r) && bytes <= base
  {
    && OwnStretch(l, m, r, (base - bytes) / PAGE_SIZE, Started(bytes))
    && Permitted(m, r, (base - bytes) / PAGE_SIZE, Started(bytes), true, false)
  }

  ghost predicate ImageMapped(l: Layout, m: Mem, r: nat, minVma: nat, maxVma: nat, binSize: nat)
    requires IsFrame(r) && ImageOk(minVma, maxVma, binSize)
  {
    && OwnStretch(l, m, r, minVma / PAGE_SIZE, ImagePages(minVma, maxVma, binSize))
    && ImagePermitted(m, r, minVma, maxVma, binSize)
  }

  /** The image, local memory, the stacks and I/O are mapped. */
  ghost predicate KernelMapped(l: Layout, m: Mem, r: nat, minVma: nat, maxVma: nat, binSize: nat, p: Platform)
    requires IsFrame(r) && ImageOk(minVma, maxVma, binSize) && p.Ok(l)
  {
    && ImageMapped(l, m, r, minVma, maxVma, binSize)
    && RegionMapped(m, r, p.lmemBase, p.lmemSize) && RegionMapped(m, r, p.ioBase, p.ioSize)
    && StacksMapped(l, m, r, p.stackBase, StackBytes(p.numWarps, p.numThreads, p.stackLog2))
  }

  /** Byte a of the stacks, when it lies on one of the pages that their size needs, is mapped and can be read and written. */
  ghost predicate SlotByte(m: Mem, r: nat, base: nat, bytes: nat, a: nat)
    requires IsFrame(r) && bytes <= base && a < U32
  {
    StackCovered(base, bytes) || a / PAGE_SIZE < (base - bytes) / PAGE_SIZE + Started(bytes) ==>
      a / PAGE_SIZE < PAGES && Walk(m, r, a).Pa? && PermittedAt(m, r, a / PAGE_SIZE, true, false)
  }

  /** All slots of the hardware threads. */
  ghost predicate SlotsMapped(m: Mem, r: nat, p: Platform)
    requires IsFrame(r) && 0 < p.numThreads && 0 < p.numWarps
    requires StackBytes(p.numWarps, p.numThreads, p.stackLog2) <= p.stackBase
  {
    forall id: nat, a: nat | id <= MaxHartId(p.numWarps, p.numThreads) && InSlot(p.stackBase, id, Pow2(p.stackLog2), a) ::
      a < U32 && SlotByte(m, r, p.stackBase, StackBytes(p.numWarps, p.numThreads, p.stackLog2), a)
  }

  lemma KernelIs(l: Layout, m: Mem, r: nat, minVma: nat, maxVma: nat, binSize: nat, p: Platform)
    requires IsFrame(r) && ImageOk(minVma, maxVma, binSize) && p.Ok(l)
    requires ImageMapped(l, m, r, minVma, maxVma, binSize)
    requires RegionMapped(m, r, p.lmemBase, p.lmemSize) && RegionMapped(m, r, p.ioBase, p.ioSize)
    requires 0 < p.numThreads && 0 < p.numWarps && StackBytes(p.numWarps, p.numThreads, p.stackLog2) <= p.stackBase
    requires StacksMapped(l, m, r, p.stackBase, StackBytes(p.numWarps, p.numThreads, p.stackLog2))
    ensures KernelMapped(l, m, r, minVma, maxVma, binSize, p)
  {
    hide ImageMapped, RegionMapped, StacksMapped, IsFrame, StackBytes;
  }

  lemma RegionIs(l: Layout, s: Space, s': Space, r: nat, addr: nat, size: nat, flags: nat)
    requires IsRoot(s, r) && IsFrame(r) && addr < U32 && IdentityPages(l, s, s', r, addr / PAGE_SIZE, Started(size))
    requires Marked(s'.mem, r, addr / PAGE_SIZE, Started(size), flags) && Requests(flags, true, false)
    ensures RegionMapped(s'.mem, r, addr, size)
  {
    hide IdentityPages, Marked, Requests, Permitted, SelfMapped, IsFrame, IsRoot, Started;
    IdentitySelf(l, s, s', r, addr / PAGE_SIZE, Started(size));
    MarkedPermits(s'.mem, r, addr / PAGE_SIZE, Started(size), flags, true, false);
  }

  lemma EmptyRegion(m: Mem, r: nat, addr: nat)
    requires IsFrame(r)
    ensures RegionMapped(m, r, addr, 0)
  {
  }

  lemma StacksAre(l: Layout, s: Space, s': Space, r: nat, base: nat, bytes: nat, frames: seq<nat>)
    requires IsRoot(s, r) && IsFrame(r) && bytes <= base < U32 && |frames| == Started(bytes)
    requires NewPages(l, s, s', r, (base - bytes) / PAGE_SIZE, frames)
    requires Permitted(s'.mem, r, (base - bytes) / PAGE_SIZE, |frames|, true, false)
    ensures StacksMapped(l, s'.mem, r, base, bytes)
  {
    hide NewPages, Permitted, OwnStretch, IsFrame, IsRoot, Started;
    NewPagesOwn(l, s, s', r, (base - bytes) / PAGE_SIZE, frames);
  }

  lemma ImageIs(l: Layout, s: Space, s': Space, r: nat, minVma: nat, maxVma: nat, binSize: nat, frames: seq<nat>)
    requires IsRoot(s, r) && IsFrame(r) && ImageOk(minVma, maxVma, binSize) && |frames| == ImagePages(minVma, maxVma, binSize)
    requires NewPages(l, s, s', r, minVma / PAGE_SIZE, frames) && ImagePermitted(s'.mem, r, minVma, maxVma, binSize)
    ensures ImageMapped(l, s'.mem, r, minVma, maxVma, binSize)
  {
    hide NewPages, ImagePermitted, OwnStretch, IsFrame, IsRoot, ImagePages;
    NewPagesOwn(l, s, s', r, minVma / PAGE_SIZE, frames);
  }

  // ---- it stays ----

  lemma ImageKept(l: Layout, s: Space, s': Space, r: nat, minVma: nat, maxVma: nat, binSize: nat)
    requires IsRoot(s, r) && IsFrame(r) && Extends(s, s', r) && ImageOk(minVma, maxVma, binSize)
    requires ImageMapped(l, s.mem, r, minVma, maxVma, binSize)
    ensures ImageMapped(l, s'.mem, r, minVma, maxVma, binSize)
  {
    hide Extends, ImagePermitted, OwnStretch, IsFrame, IsRoot, ImagePages;
    OwnStretchKept(l, s, s', r, minVma / PAGE_SIZE, ImagePages(minVma, maxVma, binSize));
    ImagePermittedKept(s, s', r, minVma, maxVma, binSize);
  }

  lemma RegionKept(s: Space, s': Space, r: nat, addr: nat, size: nat)
    requires IsRoot(s, r) && IsFrame(r) && Extends(s, s', r) && RegionMapped(s.mem, r, addr, size)
    ensures RegionMapped(s'.mem, r, addr, size)
  {
    hide Extends, SelfMapped, Permitted, IsFrame, IsRoot;
    SelfKept(s, s', r, addr / PAGE_SIZE, Started(size));
    PermittedKept(s, s', r, r, addr / PAGE_SIZE, Started(size), true, false);
  }

  lemma StacksKept(l: Layout, s: Space, s': Space, r: nat, base: nat, bytes: nat)
    requires IsRoot(s, r) && IsFrame(r) && Extends(s, s', r) && bytes <= base && StacksMapped(l, s.mem, r, base, bytes)
    ensures StacksMapped(l, s'.mem, r, base, bytes)
  {
    hide Extends, OwnStretch, Permitted, IsFrame, IsRoot;
    OwnStretchKept(l, s, s', r, (base - bytes) / PAGE_SIZE, Started(bytes));
    PermittedKept(s, s', r, r, (base - bytes) / PAGE_SIZE, Started(bytes), true, false);
  }

  /** What holds on the host holds wherever the entries are the same. */
  lemma KernelSame(l: Layout, m: Mem, e: Mem, r: nat, minVma: nat, maxVma: nat, binSize: nat, p: Platform)
    requires IsFrame(r) && ImageOk(minVma, maxVma, binSize) && p.Ok(l) && SameEntries(m, e, r)
    requires KernelMapped(l, m, r, minVma, maxVma, binSize, p)
    ensures KernelMapped(l, e, r, minVma, maxVma, binSize, p)
  {
    hide SameEntries, SelfMapped, OwnStretch, Permitted, IsFrame, ImagePages, CodePages, SharedBoundary, PageNo;
    CodePagesAre(minVma, maxVma, binSize);
    var first, c, n := minVma / PAGE_SIZE, CodePages(minVma, maxVma, binSize), ImagePages(minVma, maxVma, binSize);
    var bytes := StackBytes(p.numWarps, p.numThreads, p.stackLog2);
    StretchSame(l, m, e, r, first, n, true, true);
    StretchSame(l, m, e, r, first, c, SharedBoundary(minVma, maxVma, binSize), true);
    StretchSame(l, m, e, r, PageNo(first, c), n - c, true, false);
    StretchSame(l, m, e, r, p.lmemBase / PAGE_SIZE, Started(p.lmemSize), true, false);
    StretchSame(l, m, e, r, p.ioBase / PAGE_SIZE, Started(p.ioSize), true, false);
    StretchSame(l, m, e, r, (p.stackBase - bytes) / PAGE_SIZE, Started(bytes), true, false);
  }

  /** A byte on the pages of the stacks. */
  lemma SlotByteMapped(l: Layout, s: Space, r: nat, base: nat, bytes: nat, a: nat)
    requires Inv(l, s) && IsRoot(s, r) && IsFrame(r) && bytes <= base < U32 && base - bytes <= a < base
    requires StacksMapped(l, s.mem, r, base, bytes)
    ensures SlotByte(s.mem, r, base, bytes, a)
  {
    hide Inv, IsRoot, IsFrame, Walk, Entry, PtePa, StackCovered, Started, Permits, OwnStretch;
    StackPages(base, bytes);
    BelowTop(base, a);
    var first := (base - bytes) / PAGE_SIZE;
    if a / PAGE_SIZE < first + Started(bytes) {
      NoOffset(first);
      FromFirst(first, a / PAGE_SIZE);
      assert PermittedAt(s.mem, r, PageNo(first, a / PAGE_SIZE - first), true, false);
      WalkIsTarget(l, s, r, a);
    }
  }

  lemma BelowTop(base: nat, a: nat)
    requires a < base < U32
    ensures a / PAGE_SIZE < Started(base) && a / PAGE_SIZE < PAGES
  {
  }

  lemma FromFirst(first: nat, p: nat)
    requires first <= p < PAGES
    ensures PageNo(first, p - first) == p
  {
  }

  lemma SlotsAre(l: Layout, s: Space, r: nat, p: Platform)
    requires Inv(l, s) && IsRoot(s, r) && IsFrame(r) && p.Ok(l)
    requires StacksMapped(l, s.mem, r, p.stackBase, StackBytes(p.numWarps, p.numThreads, p.stackLog2))
    ensures SlotsMapped(s.mem, r, p)
  {
    hide Inv, IsRoot, IsFrame, StacksMapped, StackBytes, MaxHartId, InSlot, SlotByte, Uncounted, Pow2;
    forall id: nat, a: nat | id <= MaxHartId(p.numWarps, p.numThreads) && InSlot(p.stackBase, id, Pow2(p.stackLog2), a)
      ensures a < U32 && SlotByte(s.mem, r, p.stackBase, StackBytes(p.numWarps, p.numThreads, p.stackLog2), a)
    {
      SlotInside(p.numWarps, p.numThreads, p.stackBase, p.stackLog2, id, a);
      SlotByteMapped(l, s, r, p.stackBase, StackBytes(p.numWarps, p.numThreads, p.stackLog2), a);
    }
  }

  lemma SlotsSame(m: Mem, e: Mem, r: nat, p: Platform)
    requires IsFrame(r) && 0 < p.numThreads && 0 < p.numWarps && StackBytes(p.numWarps, p.numThreads, p.stackLog2) <= p.stackBase
    requires SlotsMapped(m, r, p) && SameEntries(m, e, r) && forall va: nat | va < U32 :: Walk(e, r, va) == Walk(m, r, va)
    ensures SlotsMapped(e, r, p)
  {
    hide IsFrame, StackBytes, MaxHartId, InSlot, Pow2, Walk, Entry, Permits, StackCovered, Started;
    forall id: nat, a: nat | id <= MaxHartId(p.numWarps, p.numThreads) && InSlot(p.stackBase, id, Pow2(p.stackLog2), a)
      ensures a < U32 && SlotByte(e, r, p.stackBase, StackBytes(p.numWarps, p.numThreads, p.stackLog2), a)
    {
      assert SlotByte(m, r, p.stackBase, StackBytes(p.numWarps, p.numThreads, p.stackLog2), a);
    }
  }

  // ---- what the hardware does with it ----

  /** A program in user mode can fetch and read every byte on a code page, and write it only when a page is shared with data. */
  lemma CodeWorks(l: Layout, m: Mem, e: Mem, r: nat, minVma: nat, maxVma: nat, binSize: nat, a: nat)
    requires IsFrame(r) && ImageOk(minVma, maxVma, binSize) && ImageMapped(l, m, r, minVma, maxVma, binSize) && HardwareAgrees(m, e, r)
    requires minVma <= a < (minVma / PAGE_SIZE + CodePages(minVma, maxVma, binSize)) * PAGE_SIZE && a < maxVma
    ensures a < U32 && a / PAGE_SIZE < PAGES && Target(m, r, a / PAGE_SIZE).Some?
    ensures var pa := Some(Target(m, r, a / PAGE_SIZE).value + a % PAGE_SIZE);
      && UserAccess(e, r, a, 1, Fetch) == pa && UserAccess(e, r, a, 1, Load) == pa
      && UserAccess(e, r, a, 1, Store) == if SharedBoundary(minVma, maxVma, binSize) then pa else None
  {
    hide UserAccess, UserTarget, Entry, PtePa, Permits, ImagePermitted, OwnStretch, IsFrame, SharedBoundary, CodePages, ImagePages;
    CodeByte(m, r, minVma, maxVma, binSize, a);
    PermittedAccess(m, r, a, SharedBoundary(minVma, maxVma, binSize), true);
  }

  /** It can read and write every byte of a region at its own address, and fetch none. */
  lemma RegionWorks(m: Mem, e: Mem, r: nat, addr: nat, size: nat, a: nat)
    requires IsFrame(r) && addr <= a < addr + size && a < U32 && RegionMapped(m, r, addr, size) && HardwareAgrees(m, e, r)
    requires a / PAGE_SIZE < addr / PAGE_SIZE + Started(size)
    ensures UserAccess(e, r, a, 1, Load) == Some(a) && UserAccess(e, r, a, 1, Store) == Some(a) && UserAccess(e, r, a, 1, Fetch) == None
  {
    hide UserAccess, UserTarget, Entry, PtePa, Permits, IsFrame, Started;
    PageBelow(addr, a);
    var first := addr / PAGE_SIZE;
    FromFirst(first, a / PAGE_SIZE);
    assert PermittedAt(m, r, PageNo(first, a / PAGE_SIZE - first), true, false);
    assert Target(m, r, PageNo(first, a / PAGE_SIZE - first)) == Some(a / PAGE_SIZE * PAGE_SIZE);
    PermittedAccess(m, r, a, true, false);
  }

  lemma PageBelow(addr: nat, a: nat)
    requires addr <= a < U32
    ensures addr / PAGE_SIZE <= a / PAGE_SIZE < PAGES && a == a / PAGE_SIZE * PAGE_SIZE + a % PAGE_SIZE
  {
  }

  /** It can read and write every byte of a slot on the pages of the stacks, and fetch none. */
  lemma StackWorks(m: Mem, e: Mem, r: nat, base: nat, bytes: nat, a: nat)
    requires IsFrame(r) && bytes <= base && a < U32 && SlotByte(m, r, base, bytes, a) && HardwareAgrees(m, e, r)
    requires StackCovered(base, bytes) || a / PAGE_SIZE < (base - bytes) / PAGE_SIZE + Started(bytes)
    ensures a / PAGE_SIZE < PAGES && Target(m, r, a / PAGE_SIZE).Some?
    ensures var pa := Some(Target(m, r, a / PAGE_SIZE).value + a % PAGE_SIZE);
      UserAccess(e, r, a, 1, Load) == pa && UserAccess(e, r, a, 1, Store) == pa && UserAccess(e, r, a, 1, Fetch) == None
  {
    hide UserAccess, UserTarget, Entry, PtePa, Permits, IsFrame, Walk, Started, StackCovered;
    PermittedAccess(m, r, a, true, false);
  }
}
