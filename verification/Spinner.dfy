/** Kernel images, stacks, and transfers between host and device. */
module SpinnerModel {
  import opened Base
  import opened Bits
  import opened Memory
  import opened Sv32
  import opened Translation
  import opened Holes
  import opened PageTables
  import opened Mappings
  import opened Scratchpad
  import opened Dumps
  import opened HoleFrames
  import opened FrameAllocation
  import AllocatorSpec
  import opened AddressSpace
  import opened Device
  import opened Copies
  import opened Hardware
  import opened Uploads
  import opened ImageLayout
  import opened Stacks
  import opened Kernels
  import opened Heap

  const CODE_AND_DATA: nat := R + W + X + U + A + D
  const CODE: nat := R + X + U + A
  const DATA: nat := R + W + U + A + D

  /** What the flags ask for. */
  lemma FlagsAre()
    ensures Requests(CODE_AND_DATA, true, true) && Requests(CODE, false, true) && Requests(DATA, true, false)
    ensures Bit(CODE_AND_DATA, 1) && Bit(CODE, 1) && Bit(DATA, 1)
  {
    hide Bit;
    FlagValues(CODE_AND_DATA);
    FlagValues(CODE);
    FlagValues(DATA);
  }

  class Spinner {
    const accelerator: Accelerator
    const aspace: AddressSpaceManager

    /** A host with no kernel, for any layout of the memory. */
    constructor (accelerator: Accelerator, baseAddress: nat, capacity: nat, pageAlign: nat, blockAlign: nat,
                 ioBase: nat, ioSize: nat, lmemBase: nat, lmemSize: nat)
      requires accelerator.Valid() && FrameConfig(AllocatorSpec.Config(baseAddress, capacity, pageAlign, blockAlign))
      ensures this.accelerator == accelerator && fresh(aspace) && aspace.own == map[] && aspace.Used() == {}
      ensures aspace.pageAllocator.Cfg() == AllocatorSpec.Config(baseAddress, capacity, pageAlign, blockAlign)
      ensures aspace.Lay().lo == baseAddress && aspace.Lay().hi == baseAddress + capacity
      ensures HolesAt(aspace.Lay().holes, ioBase, ioSize, lmemBase, lmemSize)
      ensures Valid() <==> OneHoleFrame(aspace.Lay()) || (pageAlign == PAGE_SIZE && Spaced(aspace.Lay()))
    {
      hide FrameConfig, OneHoleFrame, Spaced, HolesAt, AddressSpaceManager.AllocSide, AddressSpaceManager.Valid, Inv;
      this.accelerator := accelerator;
      aspace := new AddressSpaceManager(baseAddress, capacity, pageAlign, blockAlign, ioBase, ioSize, lmemBase, lmemSize);
    }

    // ---- the kernel image ----

    /** The pages of root top from page first on got the frames since s; an image needs n of them. */
    ghost predicate Extending(l: Layout, s: Space, top: nat, first: nat, frames: seq<nat>, n: nat)
      reads aspace, aspace.scratchpad, aspace.holeList, aspace.pageAllocator, aspace.pageAllocator.Repr
    {
      && aspace.Valid() && aspace.Lay() == l && IsRoot(s, top) && IsFrame(top) && IsRoot(aspace.Sp(), top)
      && NewPages(l, s, aspace.Sp(), top, first, frames)
      && first < PAGES && |frames| <= n <= PAGES
    }

    lemma OpenExtending(l: Layout, s: Space, top: nat, first: nat, frames: seq<nat>, n: nat)
      requires Extending(l, s, top, first, frames, n)
      ensures aspace.Valid() && aspace.Lay() == l && IsRoot(s, top) && IsFrame(top) && IsRoot(aspace.Sp(), top)
      ensures NewPages(l, s, aspace.Sp(), top, first, frames) && first < PAGES && |frames| <= n <= PAGES
      ensures Wrote(s, aspace.Sp(), top, first, frames)
    {
      hide AddressSpaceManager.Valid, AddressSpaceManager.Sp, IsRoot, IsFrame, Wrote, Grown, Counted;
    }

    lemma CloseExtending(l: Layout, s: Space, s1: Space, top: nat, first: nat, frames: seq<nat>, n: nat, more: seq<nat>)
      requires aspace.Valid() && aspace.Lay() == l && IsRoot(s, top) && IsFrame(top) && IsRoot(s1, top)
      requires NewPages(l, s, s1, top, first, frames) && NewPages(l, s1, aspace.Sp(), top, PageNo(first, |frames|), more)
      requires first < PAGES && |frames| + |more| <= n <= PAGES
      ensures Extending(l, s, top, first, frames + more, n)
    {
      hide AddressSpaceManager.Valid, AddressSpaceManager.Sp, IsRoot, IsFrame, Wrote, Grown, Counted, PageNo;
      RootGrown(l, s1, aspace.Sp(), top, PageNo(first, |frames|), more);
      NewPagesBoth(l, s, s1, aspace.Sp(), top, first, frames, more);
    }

    /** What failed or succeeded after the frames were mapped touched only the page table of top. */
    lemma ExtendingContained(l: Layout, s: Space, s1: Space, s2: Space, top: nat, first: nat, frames: seq<nat>)
      requires IsRoot(s, top) && NewPages(l, s, s1, top, first, frames) && Contained(l, s1, s2, top)
      ensures Contained(l, s, s2, top) && IsRoot(s2, top)
    {
      hide NewPages, Contained, Extends, Grown, IsRoot;
      NewPagesExtend(l, s, s1, top, first, frames);
      ContainedAfter(l, s, s1, s2, top);
      ContainedRoot(l, s, s2, top);
    }

    /** Maps the next pages of an image; none of them is mapped already when all of its pages were unmapped. */
    method MapStretch(va: nat, size: nat, top: nat, flags: nat,
                      ghost l: Layout, ghost s: Space, ghost first: nat, ghost frames: seq<nat>, ghost n: nat)
      returns (r: MapOutcome, ghost all: seq<nat>)
      requires Extending(l, s, top, first, frames, n) && va < U32 && size <= U32 - PAGE_SIZE && Bit(flags, 1)
      requires va / PAGE_SIZE == PageNo(first, |frames|) && |frames| + Started(size) <= n
      modifies aspace`own, aspace.scratchpad, aspace.pageAllocator.Repr
      ensures aspace.Valid() && fresh(aspace.pageAllocator.Repr - old(aspace.pageAllocator.Repr)) && IsFrame(top)
      ensures Contained(l, s, aspace.Sp(), top) && IsRoot(aspace.Sp(), top)
      ensures r == Mapped ==> Extending(l, s, top, first, all, n) && |all| == |frames| + Started(size)
      ensures Unmapped(s.mem, top, first, n) ==> r != AlreadyMapped
      ensures Extends(old(aspace.Sp()), aspace.Sp(), top)
      ensures r == Mapped ==> Marked(aspace.Sp().mem, top, va / PAGE_SIZE, Started(size), flags)
      ensures r == Mapped || r == AlreadyMapped || aspace.OutOfFrames()
    {
      hide *;
      Sizes();
      OpenExtending(l, s, top, first, frames, n);
      aspace.OpenValid();
      aspace.OpenAlloc();
      aspace.LayIs();
      SmallStart(size);
      ghost var s1, more, lost := aspace.Sp(), [], 0;
      r, more, lost := aspace.AllocateVmPages(va, size, top, flags);
      aspace.LayIs();
      all := frames + more;
      ContainedRoot(l, s1, aspace.Sp(), top);
      ExtendingContained(l, s, s1, aspace.Sp(), top, first, frames);
      if r == Mapped {
        CloseExtending(l, s, s1, top, first, frames, n, more);
      } else if r == AlreadyMapped {
        NotMappedYet(s, s1, top, first, frames, n, |more|);
      }
    }

    /** Maps one page of an image. */
    method MapOne(va: nat, top: nat, flags: nat,
                  ghost l: Layout, ghost s: Space, ghost first: nat, ghost frames: seq<nat>, ghost n: nat)
      returns (r: MapOutcome, ghost all: seq<nat>)
      requires Extending(l, s, top, first, frames, n) && va < U32 && Bit(flags, 1)
      requires va / PAGE_SIZE == PageNo(first, |frames|) && |frames| + 1 <= n
      modifies aspace`own, aspace.scratchpad, aspace.pageAllocator.Repr
      ensures aspace.Valid() && fresh(aspace.pageAllocator.Repr - old(aspace.pageAllocator.Repr)) && IsFrame(top)
      ensures Contained(l, s, aspace.Sp(), top) && IsRoot(aspace.Sp(), top)
      ensures r == Mapped ==> Extending(l, s, top, first, all, n) && |all| == |frames| + 1
      ensures Unmapped(s.mem, top, first, n) ==> r != AlreadyMapped
      ensures Extends(old(aspace.Sp()), aspace.Sp(), top)
      ensures r == Mapped ==> va / PAGE_SIZE < PAGES && MarkedAt(aspace.Sp().mem, top, va / PAGE_SIZE, flags)
      ensures r == Mapped || r == AlreadyMapped || aspace.OutOfFrames()
    {
      hide *;
      Sizes();
      OpenExtending(l, s, top, first, frames, n);
      aspace.OpenValid();
      aspace.OpenAlloc();
      aspace.LayIs();
      ghost var s1, pa := aspace.Sp(), 0;
      NoOffset(PageNo(first, |frames|));
      NotMappedYet(s, s1, top, first, frames, n, 0);
      r, pa := aspace.AllocateOneVmPage(va, top, flags);
      aspace.LayIs();
      all := frames + [pa];
      ContainedRoot(l, s1, aspace.Sp(), top);
      ExtendingContained(l, s, s1, aspace.Sp(), top, first, frames);
      if r == Mapped {
        OneNewPage(l, s1, aspace.Sp(), top, PageNo(first, |frames|), pa);
        CloseExtending(l, s, s1, top, first, frames, n, [pa]);
      }
    }

    /** Code up to the shared page, the shared page, and data behind it. */
    method MapShared(minVma: nat, maxVma: nat, lastCodePage: nat, top: nat, ghost l: Layout, ghost s: Space, ghost binSize: nat)
      returns (r: MapOutcome, ghost frames: seq<nat>)
      requires ImageOk(minVma, maxVma, binSize) && SharedBoundary(minVma, maxVma, binSize)
      requires lastCodePage == LastCodePage(minVma, binSize)
      requires Extending(l, s, top, minVma / PAGE_SIZE, [], ImagePages(minVma, maxVma, binSize))
      modifies aspace`own, aspace.scratchpad, aspace.pageAllocator.Repr
      ensures aspace.Valid() && fresh(aspace.pageAllocator.Repr - old(aspace.pageAllocator.Repr)) && IsFrame(top)
      ensures Contained(l, s, aspace.Sp(), top) && IsRoot(aspace.Sp(), top)
      ensures r == Mapped ==> |frames| == ImagePages(minVma, maxVma, binSize)
      ensures r == Mapped ==> Extending(l, s, top, minVma / PAGE_SIZE, frames, |frames|)
      ensures r == Mapped ==> ImagePermitted(aspace.Sp().mem, top, minVma, maxVma, binSize)
      ensures Unmapped(s.mem, top, minVma / PAGE_SIZE, ImagePages(minVma, maxVma, binSize)) ==> r != AlreadyMapped
      ensures r == Mapped || r == AlreadyMapped || aspace.OutOfFrames()
    {
      hide *;
      Sizes();
      FlagsAre();
      ghost var first, n := minVma / PAGE_SIZE, ImagePages(minVma, maxVma, binSize);
      SharedParts(minVma, maxVma, binSize);
      OkBounds(minVma, maxVma, binSize);
      OpenExtending(l, s, top, first, [], n);
      CodePagesAre(minVma, maxVma, binSize);
      MarkedNothing(aspace.Sp().mem, top, first, CODE_AND_DATA);
      frames := [];
      if lastCodePage > minVma {
        r, frames := MapStretch(minVma, lastCodePage - minVma, top, CODE_AND_DATA, l, s, first, frames, n);
        if r != Mapped {
          return;
        }
      }
      ghost var s1, c := aspace.Sp(), |frames| + 1;
      r, frames := MapOne(lastCodePage, top, CODE_AND_DATA, l, s, first, frames, n);
      if r != Mapped {
        return;
      }
      MarkedMore(s1, aspace.Sp(), top, first, c - 1, CODE_AND_DATA);
      MarkedPermits(aspace.Sp().mem, top, first, c, CODE_AND_DATA, true, true);
      MarkedNothing(aspace.Sp().mem, top, PageNo(first, c), DATA);
      ghost var s2 := aspace.Sp();
      ExtendsSelf(s2, top);
      var nextPage := (lastCodePage + PAGE_SIZE) % U32;
      if maxVma > nextPage {
        r, frames := MapStretch(nextPage, maxVma - nextPage, top, DATA, l, s, first, frames, n);
      }
      if r == Mapped {
        PermittedKept(s2, aspace.Sp(), top, top, first, c, true, true);
        MarkedPermits(aspace.Sp().mem, top, PageNo(first, c), n - c, DATA, true, false);
        ImagePermittedIs(aspace.Sp().mem, top, minVma, maxVma, binSize, c, n - c, true);
      }
    }

    /** Whole pages of code, and data behind them. */
    method MapApart(minVma: nat, maxVma: nat, binSize: nat, top: nat, ghost l: Layout, ghost s: Space)
      returns (r: MapOutcome, ghost frames: seq<nat>)
      requires ImageOk(minVma, maxVma, binSize) && !SharedBoundary(minVma, maxVma, binSize)
      requires Extending(l, s, top, minVma / PAGE_SIZE, [], ImagePages(minVma, maxVma, binSize))
      modifies aspace`own, aspace.scratchpad, aspace.pageAllocator.Repr
      ensures aspace.Valid() && fresh(aspace.pageAllocator.Repr - old(aspace.pageAllocator.Repr)) && IsFrame(top)
      ensures Contained(l, s, aspace.Sp(), top) && IsRoot(aspace.Sp(), top)
      ensures r == Mapped ==> |frames| == ImagePages(minVma, maxVma, binSize)
      ensures r == Mapped ==> Extending(l, s, top, minVma / PAGE_SIZE, frames, |frames|)
      ensures r == Mapped ==> ImagePermitted(aspace.Sp().mem, top, minVma, maxVma, binSize)
      ensures Unmapped(s.mem, top, minVma / PAGE_SIZE, ImagePages(minVma, maxVma, binSize)) ==> r != AlreadyMapped
      ensures r == Mapped || r == AlreadyMapped || aspace.OutOfFrames()
    {
      hide *;
      Sizes();
      FlagsAre();
      ghost var first, n := minVma / PAGE_SIZE, ImagePages(minVma, maxVma, binSize);
      PlainParts(minVma, maxVma, binSize);
      OkBounds(minVma, maxVma, binSize);
      OpenExtending(l, s, top, first, [], n);
      CodePagesAre(minVma, maxVma, binSize);
      var codeSizeAligned := RoundUp(binSize) % U32;
      r, frames := MapStretch(minVma, codeSizeAligned, top, CODE, l, s, first, [], n);
      if r != Mapped {
        return;
      }
      ghost var s1, c := aspace.Sp(), |frames|;
      MarkedPermits(s1.mem, top, first, c, CODE, false, true);
      MarkedNothing(s1.mem, top, PageNo(first, c), DATA);
      ExtendsSelf(s1, top);
      var dataVa := (minVma + codeSizeAligned) % U32;
      if maxVma > (minVma + binSize) % U32 && maxVma > dataVa {
        r, frames := MapStretch(dataVa, maxVma - dataVa, top, DATA, l, s, first, frames, n);
      }
      if r == Mapped {
        PermittedKept(s1, aspace.Sp(), top, top, first, c, false, true);
        MarkedPermits(aspace.Sp().mem, top, PageNo(first, c), n - c, DATA, true, false);
        ImagePermittedIs(aspace.Sp().mem, top, minVma, maxVma, binSize, c, n - c, false);
      }
    }

    lemma OkBounds(minVma: nat, maxVma: nat, binSize: nat)
      requires ImageOk(minVma, maxVma, binSize)
      ensures minVma + binSize <= maxVma && maxVma + PAGE_SIZE <= U32
    {
    }

    /** The pages of a kernel image: in three parts when code and data share a page, in two otherwise.
      Together they are one stretch of pages, none of them requested twice. */
    method AllocateVxbinSegments(minVma: nat, maxVma: nat, binSize: nat, top: nat) returns (r: MapOutcome, ghost frames: seq<nat>)
      requires aspace.Valid() && IsRoot(aspace.Sp(), top) && ImageOk(minVma, maxVma, binSize)
      modifies aspace`own, aspace.scratchpad, aspace.pageAllocator.Repr
      ensures aspace.Valid() && fresh(aspace.pageAllocator.Repr - old(aspace.pageAllocator.Repr)) && IsFrame(top)
      ensures Contained(aspace.Lay(), old(aspace.Sp()), aspace.Sp(), top) && IsRoot(aspace.Sp(), top)
      ensures r == Mapped ==> |frames| == ImagePages(minVma, maxVma, binSize)
      ensures r == Mapped ==> NewPages(aspace.Lay(), old(aspace.Sp()), aspace.Sp(), top, minVma / PAGE_SIZE, frames)
      ensures r == Mapped ==> ImagePermitted(aspace.Sp().mem, top, minVma, maxVma, binSize)
      ensures Unmapped(old(aspace.Sp()).mem, top, minVma / PAGE_SIZE, ImagePages(minVma, maxVma, binSize)) ==> r != AlreadyMapped
      ensures r == Mapped || r == AlreadyMapped || aspace.OutOfFrames()
    {
      hide *;
      Sizes();
      aspace.OpenValid();
      aspace.OpenAlloc();
      aspace.LayIs();
      ghost var l, s := aspace.Lay(), aspace.Sp();
      StartImage(minVma, maxVma, binSize, top);
      BoundaryIs(minVma, maxVma, binSize);
      var codeEnd := (minVma + binSize) % U32;
      var lastCodePage := PageDown((minVma + binSize + U32 - 1) % U32);
      if maxVma > codeEnd && lastCodePage == PageDown(codeEnd) {
        r, frames := MapShared(minVma, maxVma, lastCodePage, top, l, s, binSize);
      } else {
        r, frames := MapApart(minVma, maxVma, binSize, top, l, s);
      }
      aspace.LayIs();
      if r == Mapped {
        OpenExtending(l, s, top, minVma / PAGE_SIZE, frames, |frames|);
      }
    }

    lemma BoundaryIs(minVma: nat, maxVma: nat, binSize: nat)
      requires ImageOk(minVma, maxVma, binSize)
      ensures SharedBoundary(minVma, maxVma, binSize) <==>
        maxVma > (minVma + binSize) % U32 && PageDown((minVma + binSize + U32 - 1) % U32) == PageDown((minVma + binSize) % U32)
      ensures LastCodePage(minVma, binSize) == PageDown((minVma + binSize + U32 - 1) % U32)
      ensures minVma + binSize == (minVma + binSize) % U32 && minVma + binSize <= maxVma && maxVma + PAGE_SIZE <= U32
    {
    }

    lemma StartImage(minVma: nat, maxVma: nat, binSize: nat, top: nat)
      requires aspace.Valid() && IsRoot(aspace.Sp(), top) && ImageOk(minVma, maxVma, binSize)
      ensures Extending(aspace.Lay(), aspace.Sp(), top, minVma / PAGE_SIZE, [], ImagePages(minVma, maxVma, binSize))
    {
      hide AddressSpaceManager.Valid, AddressSpaceManager.Sp, NewPages;
      ImageCovered(minVma, maxVma, binSize);
      NoNewPages(aspace.Lay(), aspace.Sp(), top, minVma / PAGE_SIZE);
    }
  
    // ---- transfers ----

    ghost predicate Valid()
      reads aspace, aspace.scratchpad, aspace.holeList, aspace.pageAllocator, aspace.pageAllocator.Repr
    {
      aspace.Valid() && accelerator.Valid() && accelerator.data !in aspace.pageAllocator.Repr
    }

    lemma Opened(top: nat)
      requires Valid() && IsRoot(aspace.Sp(), top)
      ensures aspace.Valid() && accelerator.Valid() && accelerator.data !in aspace.pageAllocator.Repr
      ensures IsFrame(top) && accelerator.data.Length == U32
    {
      hide AddressSpaceManager.Valid, AddressSpaceManager.Sp;
    }

    lemma Closed()
      requires aspace.Valid() && accelerator.Valid() && accelerator.data !in aspace.pageAllocator.Repr
      ensures Valid()
    {
      hide AddressSpaceManager.Valid;
    }

    /** Translates an address and leaves everything as it is. */
    method TranslateHere(va: nat, top: nat) returns (pa: Option<nat>)
      requires Valid() && IsRoot(aspace.Sp(), top) && IsFrame(top) && va < U32
      modifies aspace.scratchpad
      ensures Valid() && aspace.Sp() == old(aspace.Sp()) && aspace.Lay() == old(aspace.Lay()) && Inv(aspace.Lay(), aspace.Sp())
      ensures pa == Loaded(Walk(aspace.Sp().mem, top, va))
    {
      hide *;
      Opened(top);
      aspace.OpenValid();
      aspace.OpenAlloc();
      aspace.LayIs();
      aspace.SpIs();
      pa := aspace.Translate(va, top);
      aspace.LayIs();
      aspace.SpIs();
      aspace.CloseValid(aspace.Lay(), aspace.Sp());
      Closed();
    }

    lemma LoadedIs(w: Walked)
      ensures match Loaded(w) case Some(pa) => w == Pa(pa) case None => w.Fault?
    {
    }

    lemma NothingPlaced(m: Mem, d: Mem, r: nat, va: nat)
      requires IsFrame(r) && va < U32
      ensures After(va, 0) == va && AllInside(m, r, va, 0) && Placed(m, d, r, va, []) == d && Fetched(m, d, r, va, 0) == []
    {
    }

    lemma AfterAfter(va: nat, o: nat, c: nat)
      ensures (After(va, o) + c) % U32 == After(va, o + c)
    {
      WrapAdd(c, va + o);
    }

    /** Stores content where the page table of top maps it, in chunks that end at page boundaries. An unmapped page ends
      the transfer with an error. */
    method CopyHostToDev(top: nat, baseVa: nat, content: seq<byte>) returns (ok: bool, ghost k: nat)
      requires Valid() && IsRoot(aspace.Sp(), top) && baseVa < U32
      modifies accelerator.data, aspace.scratchpad
      ensures Valid() && aspace.Sp() == old(aspace.Sp()) && IsFrame(top) && k <= |content|
      ensures AllInside(aspace.Sp().mem, top, baseVa, k)
      ensures accelerator.Mem() == Placed(aspace.Sp().mem, old(accelerator.Mem()), top, baseVa, content[..k])
      ensures ok <==> k == |content|
      ensures !ok ==> Walk(aspace.Sp().mem, top, After(baseVa, k)).Fault?
    {
      hide *;
      Sizes();
      Opened(top);
      ghost var s, d := aspace.Sp(), accelerator.Mem();
      var va, offset := baseVa, 0;
      NothingPlaced(s.mem, d, top, baseVa);
      while offset < |content|
        invariant 0 <= offset <= |content| && va == After(baseVa, offset)
        invariant Valid() && aspace.Sp() == s && AllInside(s.mem, top, baseVa, offset)
        invariant accelerator.Mem() == Placed(s.mem, d, top, baseVa, content[..offset])
        decreases |content| - offset
      {
        Opened(top);
        var pageOff := va % PAGE_SIZE;
        var chunkSize := if PAGE_SIZE - pageOff <= |content| - offset then PAGE_SIZE - pageOff else |content| - offset;
        var pa := TranslateHere(va, top);
        LoadedIs(Walk(s.mem, top, va));
        if pa.None? {
          return false, offset;
        }
        ChunkIsOk(aspace.Lay(), s, top, baseVa, offset, chunkSize, pa.value);
        ChunkPlaced(s.mem, d, top, baseVa, content, offset, chunkSize, pa.value);
        ChunkEnds(s.mem, top, baseVa, offset, chunkSize, pa.value);
        Opened(top);
        accelerator.Upload(pa.value, content[offset..offset + chunkSize]);
        AfterAfter(baseVa, offset, chunkSize);
        va := (va + chunkSize) % U32;
        offset := offset + chunkSize;
        Closed();
      }
      return true, |content|;
    }

    lemma ChunkEnds(m: Mem, r: nat, va: nat, o: nat, c: nat, pa: nat)
      requires IsFrame(r) && ChunkOk(m, r, va, o, c, pa)
      ensures pa + c <= U32
    {
    }

    /** Reads size bytes where the page table of top maps them. */
    method CopyDevToHost(top: nat, baseVa: nat, size: nat) returns (content: Option<seq<byte>>, ghost k: nat)
      requires Valid() && IsRoot(aspace.Sp(), top) && baseVa < U32
      modifies aspace.scratchpad
      ensures Valid() && aspace.Sp() == old(aspace.Sp()) && IsFrame(top) && accelerator.Mem() == old(accelerator.Mem())
      ensures k <= size && AllInside(aspace.Sp().mem, top, baseVa, k) && (content.Some? <==> k == size)
      ensures content.Some? ==> content.value == Fetched(aspace.Sp().mem, accelerator.Mem(), top, baseVa, size)
      ensures content.None? ==> Walk(aspace.Sp().mem, top, After(baseVa, k)).Fault?
    {
      hide *;
      Sizes();
      Opened(top);
      ghost var s, d := aspace.Sp(), accelerator.Mem();
      var va, offset, dest := baseVa, 0, [];
      NothingPlaced(s.mem, d, top, baseVa);
      while offset < size
        invariant 0 <= offset <= size && va == After(baseVa, offset)
        invariant Valid() && aspace.Sp() == s && AllInside(s.mem, top, baseVa, offset) && accelerator.Mem() == d
        invariant dest == Fetched(s.mem, d, top, baseVa, offset)
        decreases size - offset
      {
        Opened(top);
        var pageOff := va % PAGE_SIZE;
        var chunkSize := if PAGE_SIZE - pageOff <= size - offset then PAGE_SIZE - pageOff else size - offset;
        var pa := TranslateHere(va, top);
        LoadedIs(Walk(s.mem, top, va));
        if pa.None? {
          return None, offset;
        }
        ChunkIsOk(aspace.Lay(), s, top, baseVa, offset, chunkSize, pa.value);
        ChunkFetched(s.mem, d, top, baseVa, offset, chunkSize, pa.value);
        ChunkEnds(s.mem, top, baseVa, offset, chunkSize, pa.value);
        var chunk := accelerator.Download(pa.value, chunkSize);
        AfterAfter(baseVa, offset, chunkSize);
        dest := dest + chunk;
        va := (va + chunkSize) % U32;
        offset := offset + chunkSize;
      }
      return Some(dest), size;
    }
  
    /** Uploads the pages of a dump, in any order. */
    method UploadSparseScratchpad(data: Store)
      requires Valid() && StoreOk(data) && forall k <- data :: IsFrame(k)
      modifies accelerator.data
      ensures Valid() && aspace.Sp() == old(aspace.Sp()) && accelerator.Mem() == Overlay(old(accelerator.Mem()), data, data.Keys)
    {
      hide AddressSpaceManager.Valid, AddressSpaceManager.Sp, Accelerator.Mem, Overlay, Written;
      ghost var d := accelerator.Mem();
      var rest := data.Keys;
      OverlayNothing(d, data);
      assert data.Keys - rest == {};
      while rest != {}
        invariant Valid() && aspace.Sp() == old(aspace.Sp()) && rest <= data.Keys
        invariant accelerator.Mem() == Overlay(d, data, data.Keys - rest)
        decreases rest
      {
        var pa :| pa in rest;
        OverlayPage(d, data, data.Keys - rest, pa);
        assert data.Keys - (rest - {pa}) == data.Keys - rest + {pa};
        accelerator.Upload(pa, data[pa]);
        rest := rest - {pa};
      }
      assert data.Keys - rest == data.Keys;
    }

    /** Uploads the page table of top; from then on the device translates through it as the host does, and its hardware grants
      every access in user mode that the entries allow, and no other. */
    method UploadPageTable(top: nat) returns (ghost dump: Store)
      requires Valid() && IsRoot(aspace.Sp(), top)
      modifies accelerator.data, aspace.scratchpad
      ensures Valid() && aspace.Sp() == old(aspace.Sp()) && IsFrame(top)
      ensures dump.Keys == Tables(aspace.own, top) && accelerator.Mem() == Overlay(old(accelerator.Mem()), dump, dump.Keys)
      ensures forall va: nat | va < U32 :: Walk(accelerator.Mem(), top, va) == Walk(aspace.Sp().mem, top, va)
      ensures SameEntries(aspace.Sp().mem, accelerator.Mem(), top) && HardwareAgrees(aspace.Sp().mem, accelerator.Mem(), top)
    {
      hide *;
      Opened(top);
      aspace.OpenValid();
      aspace.OpenAlloc();
      aspace.SpIs();
      aspace.LayIs();
      ghost var d := accelerator.Mem();
      var content := aspace.DumpPageTable(top);
      aspace.SpIs();
      aspace.LayIs();
      aspace.OpenValid();
      DumpIsStore(aspace.Lay(), aspace.Sp(), top, content);
      DeviceTranslates(aspace.Lay(), aspace.Sp(), top, d, content);
      DeviceEntries(aspace.Lay(), aspace.Sp(), top, d, content);
      Closed();
      UploadSparseScratchpad(content);
      aspace.SpIs();
      dump := content;
    }

    lemma DumpIsStore(l: Layout, s: Space, r: nat, dump: Store)
      requires Inv(l, s) && IsRoot(s, r) && Dumped(s.mem, map[], dump, Tables(s.own, r))
      ensures StoreOk(dump) && dump.Keys == Tables(s.own, r) && forall k <- dump :: IsFrame(k)
    {
      hide Inv, Tables, IsFrame;
      TableFrames(l, s, r);
    }

    lemma DeviceTranslates(l: Layout, s: Space, r: nat, d: Mem, dump: Store)
      requires Inv(l, s) && IsRoot(s, r) && IsFrame(r) && Dumped(s.mem, map[], dump, Tables(s.own, r))
      ensures forall va: nat | va < U32 :: Walk(Overlay(d, dump, dump.Keys), r, va) == Walk(s.mem, r, va)
    {
      hide *;
      forall va: nat | va < U32 ensures Walk(Overlay(d, dump, dump.Keys), r, va) == Walk(s.mem, r, va) {
        DeviceWalks(l, s, r, d, dump, va);
      }
    }
  
    // ---- stacks ----

    /** Maps the stacks of all hardware threads below stackBase. On success a byte of a slot is mapped when it lies on one of
      the pages that the size of the stacks needs, which all bytes do when the stacks are covered. */
    method AllocateUserStack(top: nat, numThreads: nat, numWarps: nat, stackBase: nat, stackLog2: nat)
      returns (r: MapOutcome, ghost frames: seq<nat>)
      requires aspace.Valid() && IsRoot(aspace.Sp(), top) && 0 < numThreads && 0 < numWarps
      requires stackBase < U32 && StackBytes(numWarps, numThreads, stackLog2) <= stackBase
      modifies aspace`own, aspace.scratchpad, aspace.pageAllocator.Repr
      ensures aspace.Valid() && fresh(aspace.pageAllocator.Repr - old(aspace.pageAllocator.Repr)) && IsFrame(top)
      ensures Contained(aspace.Lay(), old(aspace.Sp()), aspace.Sp(), top) && IsRoot(aspace.Sp(), top)
      ensures r == Mapped ==> NewPages(aspace.Lay(), old(aspace.Sp()), aspace.Sp(), top,
        (stackBase - StackBytes(numWarps, numThreads, stackLog2)) / PAGE_SIZE, frames)
      ensures r == Mapped ==> |frames| == Started(StackBytes(numWarps, numThreads, stackLog2))
      ensures r == Mapped ==> Permitted(aspace.Sp().mem, top, (stackBase - StackBytes(numWarps, numThreads, stackLog2)) / PAGE_SIZE,
        |frames|, true, false)
      ensures r == AlreadyMapped && StackBytes(numWarps, numThreads, stackLog2) <= U32 - PAGE_SIZE ==>
        !Unmapped(old(aspace.Sp()).mem, top, (stackBase - StackBytes(numWarps, numThreads, stackLog2)) / PAGE_SIZE,
          Started(StackBytes(numWarps, numThreads, stackLog2)))
      ensures r == Mapped || r == AlreadyMapped || aspace.OutOfFrames()
      ensures r == Mapped ==> forall id: nat, a: nat | id <= MaxHartId(numWarps, numThreads) && InSlot(stackBase, id, Pow2(stackLog2), a) ::
        a < U32 && StackByte(old(aspace.Sp()).mem, aspace.Sp().mem, top, stackBase, StackBytes(numWarps, numThreads, stackLog2), a)
    {
      hide *;
      Sizes();
      FlagsAre();
      aspace.OpenValid();
      aspace.OpenAlloc();
      aspace.LayIs();
      ghost var l, s := aspace.Lay(), aspace.Sp();
      StackBytesIs(numWarps, numThreads, stackLog2);
      var perStackSize := Pow2(stackLog2);
      var ntBits := CeilLog2(numThreads);
      var nwBits := CeilLog2(numWarps);
      var maxHartId := HartId(NUM_CORES - 1, numWarps - 1, numThreads - 1, nwBits, ntBits);
      var stackSize := perStackSize * (maxHartId + 1);
      StackFits(stackBase, stackSize);
      ghost var lost, first := 0, (stackBase - stackSize) / PAGE_SIZE;
      r, frames, lost := aspace.AllocateVmPages(stackBase - stackSize, stackSize, top, DATA);
      aspace.OpenValid();
      aspace.LayIs();
      if r == AlreadyMapped && stackSize <= U32 - PAGE_SIZE {
        MappedInside(s.mem, top, first, Started(stackSize), |frames|);
      }
      if r == Mapped {
        RootGrown(l, s, aspace.Sp(), top, first, frames);
        MarkedPermits(aspace.Sp().mem, top, first, |frames|, DATA, true, false);
        StackMapped(aspace.Lay(), s, aspace.Sp(), top, stackBase, stackSize, frames);
        forall id: nat, a: nat | id <= MaxHartId(numWarps, numThreads) && InSlot(stackBase, id, Pow2(stackLog2), a)
          ensures a < U32 && StackByte(s.mem, aspace.Sp().mem, top, stackBase, stackSize, a)
        {
          SlotInside(numWarps, numThreads, stackBase, stackLog2, id, a);
        }
      }
    }

    lemma StackFits(base: nat, bytes: nat)
      requires bytes <= base < U32
      ensures (bytes <= U32 - PAGE_SIZE ==> Started(bytes) < PAGES) && (base - bytes) / PAGE_SIZE < PAGES
    {
    }

    /** A page of a stretch that is mapped. */
    lemma MappedInside(m: Mem, r: nat, first: nat, n: nat, k: nat)
      requires IsFrame(r) && first < PAGES && k < n && k < PAGES && Target(m, r, PageNo(first, k)).Some?
      ensures !Unmapped(m, r, first, n)
    {
      hide Entry, PtePa, IsFrame, PageNo;
      if Unmapped(m, r, first, n) {
        UnmappedAt(m, r, first, n, k);
      }
    }

    lemma StackBytesIs(warps: nat, threads: nat, stackLog2: nat)
      requires 0 < warps && 0 < threads
      ensures NUM_CORES == 4 && StackBytes(warps, threads, stackLog2) ==
        Pow2(stackLog2) * (HartId(NUM_CORES - 1, warps - 1, threads - 1, CeilLog2(warps), CeilLog2(threads)) + 1)
    {
    }

    /** Byte a is mapped exactly when it lies on one of the pages that the stacks need, or on a page that was mapped before;
      always when the stacks are covered. */
    ghost predicate StackByte(m: Mem, m': Mem, r: nat, base: nat, bytes: nat, a: nat)
      requires IsFrame(r) && bytes <= base && a < U32
    {
      && (Walk(m', r, a).Pa? <==> a / PAGE_SIZE < (base - bytes) / PAGE_SIZE + Started(bytes) || Target(m, r, a / PAGE_SIZE).Some?)
      && (StackCovered(base, bytes) ==> Walk(m', r, a).Pa?)
    }

    lemma StackMapped(l: Layout, s: Space, s': Space, r: nat, base: nat, bytes: nat, frames: seq<nat>)
      requires Inv(l, s') && IsRoot(s, r) && IsRoot(s', r) && IsFrame(r) && bytes <= base < U32
      requires NewPages(l, s, s', r, (base - bytes) / PAGE_SIZE, frames) && |frames| == Started(bytes)
      ensures forall a: nat | base - bytes <= a < base :: StackByte(s.mem, s'.mem, r, base, bytes, a)
    {
      hide Inv, IsRoot, IsFrame, Walk, Entry, PtePa, Grown, Counted, Started, StackCovered;
      StackPages(base, bytes);
      var first := (base - bytes) / PAGE_SIZE;
      forall a: nat | base - bytes <= a < base ensures StackByte(s.mem, s'.mem, r, base, bytes, a) {
        WalkIsTarget(l, s', r, a);
        assert a / PAGE_SIZE < Started(base);
        assert WroteAt(s, s', r, first, frames, r, a / PAGE_SIZE);
      }
    }
  
    // ---- starting a kernel ----

    /** Since s only the page table of top has changed, and it has only grown. */
    ghost predicate Progress(l: Layout, s: Space, top: nat)
      reads aspace, aspace.scratchpad, aspace.holeList, aspace.pageAllocator, aspace.pageAllocator.Repr
    {
      && Valid() && aspace.Lay() == l && IsFrame(top) && IsRoot(s, top) && IsRoot(aspace.Sp(), top)
      && Extends(s, aspace.Sp(), top) && Grown(l, s, aspace.Sp(), top)
    }

    lemma OpenProgress(l: Layout, s: Space, top: nat)
      requires Progress(l, s, top)
      ensures Valid() && aspace.Lay() == l && IsFrame(top) && IsRoot(s, top) && IsRoot(aspace.Sp(), top)
      ensures Extends(s, aspace.Sp(), top) && Grown(l, s, aspace.Sp(), top)
    {
      hide Valid, AddressSpaceManager.Sp, IsFrame, IsRoot, Extends, Grown;
    }

    lemma MoreProgress(l: Layout, s: Space, s1: Space, top: nat)
      requires Valid() && aspace.Lay() == l && IsFrame(top) && IsRoot(s, top) && IsRoot(s1, top)
      requires Extends(s, s1, top) && Grown(l, s, s1, top) && Extends(s1, aspace.Sp(), top) && Grown(l, s1, aspace.Sp(), top)
      ensures Progress(l, s, top)
    {
      hide Valid, AddressSpaceManager.Sp, IsFrame, IsRoot, Grown, ExtendsAt;
      ExtendsBoth(s, s1, aspace.Sp(), top);
      GrownBoth(l, s, s1, aspace.Sp(), top);
    }

    /** A step after progress, successful or not. */
    lemma ProgressContained(l: Layout, s: Space, s1: Space, s2: Space, top: nat)
      requires IsRoot(s, top) && Extends(s, s1, top) && Grown(l, s, s1, top) && Contained(l, s1, s2, top)
      ensures Contained(l, s, s2, top) && IsRoot(s2, top)
    {
      hide Contained, Extends, Grown, IsRoot;
      ContainedAfter(l, s, s1, s2, top);
      ContainedRoot(l, s, s2, top);
    }

    lemma NoProgress(top: nat)
      requires Valid() && IsRoot(aspace.Sp(), top)
      ensures Progress(aspace.Lay(), aspace.Sp(), top)
    {
      hide Valid, AddressSpaceManager.Sp, Extends, Grown;
      ExtendsSelf(aspace.Sp(), top);
      GrownSelf(aspace.Lay(), aspace.Sp(), top);
    }

    /** Local memory and I/O are mapped to themselves. */
    method MapRegion(addr: nat, size: nat, top: nat, ghost l: Layout, ghost s: Space) returns (r: MapOutcome)
      requires Progress(l, s, top) && addr < U32 && size < U32 && Uncounted(l, addr / PAGE_SIZE, Started(size))
      modifies aspace`own, aspace.scratchpad, aspace.pageAllocator.Repr
      ensures Valid() && fresh(aspace.pageAllocator.Repr - old(aspace.pageAllocator.Repr)) && IsFrame(top)
      ensures Contained(l, s, aspace.Sp(), top) && IsRoot(aspace.Sp(), top) && aspace.Lay() == l
      ensures r == Mapped ==> Progress(l, s, top)
      ensures Extends(old(aspace.Sp()), aspace.Sp(), top) && (r == Mapped ==> RegionMapped(aspace.Sp().mem, top, addr, size))
      ensures size <= U32 - PAGE_SIZE ==> PartDone(old(aspace.Sp()).mem, aspace.Sp().mem, top, addr / PAGE_SIZE, Started(size),
        r == Mapped, r == AlreadyMapped)
      ensures r == Mapped || r == AlreadyMapped || aspace.OutOfFrames()
    {
      hide *;
      Sizes();
      FlagsAre();
      OpenProgress(l, s, top);
      Opened(top);
      aspace.OpenValid();
      aspace.OpenAlloc();
      aspace.LayIs();
      ghost var s1, n := aspace.Sp(), 0;
      LargeRegion(l, addr / PAGE_SIZE, size);
      r, n := aspace.UnsafeMapIdentity(addr, size, top, DATA);
      aspace.LayIs();
      FewerUncounted(l, addr / PAGE_SIZE, Started(size), n);
      Closed();
      ProgressContained(l, s, s1, aspace.Sp(), top);
      ContainedRoot(l, s1, aspace.Sp(), top);
      if r == Mapped {
        RegionIs(l, s1, aspace.Sp(), top, addr, size, DATA);
        IdentityExtends(l, s1, aspace.Sp(), top, addr / PAGE_SIZE, n);
        RootIdentity(l, s1, aspace.Sp(), top, addr / PAGE_SIZE, n);
        MoreProgress(l, s, s1, top);
        IdentityPart(l, s1, aspace.Sp(), top, addr / PAGE_SIZE, n);
      } else if size <= U32 - PAGE_SIZE {
        SmallStart(size);
        PageBound(addr);
        if r == AlreadyMapped {
          MappedInside(s1.mem, top, addr / PAGE_SIZE, Started(size), n);
        }
        PartFailed(s1.mem, aspace.Sp().mem, top, addr / PAGE_SIZE, Started(size), r == AlreadyMapped);
      }
    }

    lemma LargeRegion(l: Layout, first: nat, size: nat)
      requires size < U32 && Uncounted(l, first, Started(size))
      ensures size <= U32 - PAGE_SIZE || Uncounted(l, first, PAGES)
    {
      hide Counted, PageNo;
    }

    lemma PageBound(va: nat)
      requires va < U32
      ensures va / PAGE_SIZE < PAGES
    {
    }

    lemma IdentityPart(l: Layout, s: Space, s': Space, r: nat, first: nat, n: nat)
      requires IsRoot(s, r) && IsFrame(r) && IdentityPages(l, s, s', r, first, n)
      ensures PartDone(s.mem, s'.mem, r, first, n, true, false)
    {
      hide IsRoot, IsFrame, Wrote, PartDone, Grown;
      PartIsDone(s, s', r, first, Identity(first, n));
    }

    method MapStack(top: nat, numThreads: nat, numWarps: nat, stackBase: nat, stackLog2: nat, ghost l: Layout, ghost s: Space)
      returns (r: MapOutcome)
      requires Progress(l, s, top) && 0 < numThreads && 0 < numWarps
      requires stackBase < U32 && StackBytes(numWarps, numThreads, stackLog2) <= stackBase
      modifies aspace`own, aspace.scratchpad, aspace.pageAllocator.Repr
      ensures Valid() && fresh(aspace.pageAllocator.Repr - old(aspace.pageAllocator.Repr)) && IsFrame(top)
      ensures Contained(l, s, aspace.Sp(), top) && IsRoot(aspace.Sp(), top) && aspace.Lay() == l
      ensures r == Mapped ==> Progress(l, s, top)
      ensures Extends(old(aspace.Sp()), aspace.Sp(), top)
      ensures r == Mapped ==> StacksMapped(l, aspace.Sp().mem, top, stackBase, StackBytes(numWarps, numThreads, stackLog2))
      ensures var bytes := StackBytes(numWarps, numThreads, stackLog2);
        bytes <= U32 - PAGE_SIZE ==>
          PartDone(old(aspace.Sp()).mem, aspace.Sp().mem, top, (stackBase - bytes) / PAGE_SIZE, Started(bytes), r == Mapped, r == AlreadyMapped)
      ensures r == Mapped || r == AlreadyMapped || aspace.OutOfFrames()
    {
      hide *;
      Sizes();
      OpenProgress(l, s, top);
      Opened(top);
      aspace.OpenValid();
      aspace.OpenAlloc();
      aspace.LayIs();
      ghost var s1, frames := aspace.Sp(), [];
      r, frames := AllocateUserStack(top, numThreads, numWarps, stackBase, stackLog2);
      aspace.LayIs();
      Closed();
      ProgressContained(l, s, s1, aspace.Sp(), top);
      ContainedRoot(l, s1, aspace.Sp(), top);
      ghost var bytes := StackBytes(numWarps, numThreads, stackLog2);
      ghost var first := (stackBase - bytes) / PAGE_SIZE;
      if r != Mapped {
        if bytes <= U32 - PAGE_SIZE {
          PartFailed(s1.mem, aspace.Sp().mem, top, first, Started(bytes), r == AlreadyMapped);
        }
      } else {
        StacksAre(l, s1, aspace.Sp(), top, stackBase, bytes, frames);
        NewPagesWrote(l, s1, aspace.Sp(), top, first, frames);
        PartIsDone(s1, aspace.Sp(), top, first, frames);
        NewPagesExtend(l, s1, aspace.Sp(), top, first, frames);
        RootGrown(l, s1, aspace.Sp(), top, first, frames);
        MoreProgress(l, s, s1, top);
      }
    }

    /** Maps the image; afterwards the code lies on pages of the kernel's own, as far as they reach. */
    method MapImage(minVma: nat, maxVma: nat, binSize: nat, top: nat) returns (r: MapOutcome)
      requires Valid() && IsRoot(aspace.Sp(), top) && ImageOk(minVma, maxVma, binSize)
      modifies aspace`own, aspace.scratchpad, aspace.pageAllocator.Repr
      ensures Valid() && fresh(aspace.pageAllocator.Repr - old(aspace.pageAllocator.Repr)) && IsFrame(top)
      ensures Contained(aspace.Lay(), old(aspace.Sp()), aspace.Sp(), top) && IsRoot(aspace.Sp(), top)
      ensures r == Mapped ==> Progress(old(aspace.Lay()), old(aspace.Sp()), top)
      ensures r == Mapped ==> OwnPages(aspace.Lay(), aspace.Sp().mem, top, minVma, HeldBytes(minVma, maxVma, binSize))
      ensures r == Mapped ==> ImageMapped(aspace.Lay(), aspace.Sp().mem, top, minVma, maxVma, binSize)
      ensures PartDone(old(aspace.Sp()).mem, aspace.Sp().mem, top, minVma / PAGE_SIZE, ImagePages(minVma, maxVma, binSize),
        r == Mapped, r == AlreadyMapped)
      ensures r == Mapped || r == AlreadyMapped || aspace.OutOfFrames()
    {
      hide *;
      Sizes();
      Opened(top);
      aspace.OpenValid();
      aspace.OpenAlloc();
      aspace.LayIs();
      ghost var l, s, frames := aspace.Lay(), aspace.Sp(), [];
      ExtendsSelf(s, top);
      GrownSelf(l, s, top);
      r, frames := AllocateVxbinSegments(minVma, maxVma, binSize, top);
      aspace.LayIs();
      Closed();
      if r == Mapped {
        NewPagesExtend(l, s, aspace.Sp(), top, minVma / PAGE_SIZE, frames);
        RootGrown(l, s, aspace.Sp(), top, minVma / PAGE_SIZE, frames);
        MoreProgress(l, s, s, top);
        ExtendsSelf(aspace.Sp(), top);
        ImageIs(l, s, aspace.Sp(), top, minVma, maxVma, binSize, frames);
        ImageOwned(l, s, aspace.Sp(), aspace.Sp(), top, minVma, maxVma, binSize, frames);
        NewPagesWrote(l, s, aspace.Sp(), top, minVma / PAGE_SIZE, frames);
        PartIsDone(s, aspace.Sp(), top, minVma / PAGE_SIZE, frames);
      } else {
        PartFailed(s.mem, aspace.Sp().mem, top, minVma / PAGE_SIZE, ImagePages(minVma, maxVma, binSize), r == AlreadyMapped);
      }
    }
  
    lemma PlatformOk(l: Layout, p: Platform)
      requires p.Ok(l)
      ensures p.lmemBase < U32 && p.lmemSize < U32 && Uncounted(l, p.lmemBase / PAGE_SIZE, Started(p.lmemSize))
      ensures p.ioBase < U32 && p.ioSize < U32 && Uncounted(l, p.ioBase / PAGE_SIZE, Started(p.ioSize))
      ensures 0 < p.numThreads && 0 < p.numWarps && p.stackBase < U32
      ensures StackBytes(p.numWarps, p.numThreads, p.stackLog2) <= p.stackBase
    {
    }

    /** The mappings of a kernel, in the order in which they are made. When the four regions are unmapped and apart, they
      only fail for lack of memory. */
    method MapKernel(top: nat, minVma: nat, maxVma: nat, binSize: nat, p: Platform) returns (r: MapOutcome)
      requires Valid() && IsRoot(aspace.Sp(), top) && ImageOk(minVma, maxVma, binSize)
      requires p.Ok(aspace.Lay())
      modifies aspace`own, aspace.scratchpad, aspace.pageAllocator.Repr
      ensures Valid() && fresh(aspace.pageAllocator.Repr - old(aspace.pageAllocator.Repr)) && IsFrame(top)
      ensures Contained(aspace.Lay(), old(aspace.Sp()), aspace.Sp(), top) && IsRoot(aspace.Sp(), top)
      ensures r == Mapped ==> Progress(old(aspace.Lay()), old(aspace.Sp()), top)
      ensures r == Mapped ==> OwnPages(aspace.Lay(), aspace.Sp().mem, top, minVma, HeldBytes(minVma, maxVma, binSize))
      ensures r == Mapped ==> KernelMapped(old(aspace.Lay()), aspace.Sp().mem, top, minVma, maxVma, binSize, p)
      ensures r == Mapped ==> 0 < p.numThreads && 0 < p.numWarps && StackBytes(p.numWarps, p.numThreads, p.stackLog2) <= p.stackBase
      ensures r == Mapped ==> SlotsMapped(aspace.Sp().mem, top, p)
      ensures r == Mapped || r == AlreadyMapped || aspace.OutOfFrames()
      ensures p.Small() && Vacant(old(aspace.Sp()).mem, top, p.Regions(minVma, maxVma, binSize)) ==> r != AlreadyMapped
    {
      hide *;
      Sizes();
      Opened(top);
      ghost var l, s := aspace.Lay(), aspace.Sp();
      PlatformOk(l, p);
      RegionsAre(p, minVma, maxVma, binSize);
      ghost var rs := p.Regions(minVma, maxVma, binSize);
      r := MapImage(minVma, maxVma, binSize, top);
      if r != Mapped {
        VacantFails(s.mem, aspace.Sp().mem, top, rs, r == AlreadyMapped);
        return;
      }
      VacantRest(s.mem, aspace.Sp().mem, top, rs);
      OpenProgress(l, s, top);
      NoProgress(top);
      ghost var s1 := aspace.Sp();
      EmptyRegion(s1.mem, top, p.lmemBase);
      ExtendsSelf(s1, top);
      if p.lmemSize != 0 {
        r := MapRegion(p.lmemBase, p.lmemSize, top, l, s1);
        if r != Mapped {
          ProgressContained(l, s, s1, aspace.Sp(), top);
          if p.Small() {
            VacantFails(s1.mem, aspace.Sp().mem, top, rs[1..], r == AlreadyMapped);
          }
          return;
        }
      } else {
        NoPart(s1.mem, top, p.lmemBase / PAGE_SIZE, Started(p.lmemSize));
      }
      ghost var s2, m2 := aspace.Sp(), aspace.Sp().mem;
      ImageKept(l, s1, s2, top, minVma, maxVma, binSize);
      if p.Small() {
        VacantRest(s1.mem, m2, top, rs[1..]);
      }
      r := MapStack(top, p.numThreads, p.numWarps, p.stackBase, p.stackLog2, l, s1);
      if r != Mapped {
        ProgressContained(l, s, s1, aspace.Sp(), top);
        if p.Small() {
          VacantFails(m2, aspace.Sp().mem, top, rs[1..][1..], r == AlreadyMapped);
        }
        return;
      }
      ghost var s3, m3 := aspace.Sp(), aspace.Sp().mem;
      ImageKept(l, s2, s3, top, minVma, maxVma, binSize);
      RegionKept(s2, s3, top, p.lmemBase, p.lmemSize);
      if p.Small() {
        VacantRest(m2, m3, top, rs[1..][1..]);
      }
      r := MapRegion(p.ioBase, p.ioSize, top, l, s1);
      ProgressContained(l, s, s1, aspace.Sp(), top);
      if r == Mapped {
        OpenProgress(l, s1, top);
        MoreProgress(l, s, s1, top);
        ImageKept(l, s3, aspace.Sp(), top, minVma, maxVma, binSize);
        RegionKept(s3, aspace.Sp(), top, p.lmemBase, p.lmemSize);
        StacksKept(l, s3, aspace.Sp(), top, p.stackBase, StackBytes(p.numWarps, p.numThreads, p.stackLog2));
        KernelIs(l, aspace.Sp().mem, top, minVma, maxVma, binSize, p);
        Opened(top);
        aspace.OpenValid();
        SlotsAre(l, aspace.Sp(), top, p);
        OwnKept(l, s1, aspace.Sp(), top, minVma, HeldBytes(minVma, maxVma, binSize));
      } else if p.Small() {
        VacantFails(m3, aspace.Sp().mem, top, rs[1..][1..][1..], r == AlreadyMapped);
      }
    }

    lemma RegionsAre(p: Platform, minVma: nat, maxVma: nat, binSize: nat)
      requires ImageOk(minVma, maxVma, binSize) && 0 < p.numThreads && 0 < p.numWarps
      requires StackBytes(p.numWarps, p.numThreads, p.stackLog2) <= p.stackBase
      ensures var rs, bytes := p.Regions(minVma, maxVma, binSize), StackBytes(p.numWarps, p.numThreads, p.stackLog2);
        && |rs| == 4 && rs[0] == (minVma / PAGE_SIZE, ImagePages(minVma, maxVma, binSize))
        && rs[1] == (p.lmemBase / PAGE_SIZE, Started(p.lmemSize))
        && rs[2] == ((p.stackBase - bytes) / PAGE_SIZE, Started(bytes)) && rs[3] == (p.ioBase / PAGE_SIZE, Started(p.ioSize))
      ensures p.Small() ==> p.lmemSize <= U32 - PAGE_SIZE && p.ioSize <= U32 - PAGE_SIZE && StackBytes(p.numWarps, p.numThreads, p.stackLog2) <= U32 - PAGE_SIZE
    {
      hide ImagePages, StackBytes;
    }

    lemma NoPart(m: Mem, r: nat, first: nat, n: nat)
      requires IsFrame(r)
      ensures PartDone(m, m, r, first, n, true, false)
    {
      hide Entry, PtePa, Place;
    }

    lemma OwnKept(l: Layout, s: Space, s': Space, r: nat, va: nat, n: nat)
      requires IsRoot(s, r) && IsFrame(r) && OwnPages(l, s.mem, r, va, n) && Extends(s, s', r)
      ensures OwnPages(l, s'.mem, r, va, n)
    {
      hide Entry, PtePa, IsRoot, IsFrame, Counted, After;
      forall i | 0 <= i < n ensures var t := Target(s'.mem, r, After(va, i) / PAGE_SIZE); t.Some? && Counted(l, t.value) {
        assert ExtendsAt(s, s', r, r, After(va, i) / PAGE_SIZE);
      }
    }

    /** Maps a kernel, uploads its image, then its page table. Copying ends with an error exactly when some byte of the image
      is not mapped; that cannot happen when the image's own pages hold the code, in particular when the image starts at a
      page boundary. On success the device translates as the host does and finds the image through the kernel's page
      table. In no case has another page table changed. */
    method StartKernel(top: nat, minVma: nat, maxVma: nat, image: seq<byte>, p: Platform) returns (r: MapOutcome, copied: bool)
      requires Valid() && IsRoot(aspace.Sp(), top) && ImageOk(minVma, maxVma, |image|) && p.Ok(aspace.Lay())
      modifies accelerator.data, aspace`own, aspace.scratchpad, aspace.pageAllocator.Repr
      ensures Valid() && fresh(aspace.pageAllocator.Repr - old(aspace.pageAllocator.Repr)) && IsFrame(top)
      ensures Contained(aspace.Lay(), old(aspace.Sp()), aspace.Sp(), top) && IsRoot(aspace.Sp(), top)
      ensures r == Mapped ==> Progress(old(aspace.Lay()), old(aspace.Sp()), top)
      ensures copied <==> r == Mapped && MappedBytes(aspace.Sp().mem, top, minVma, |image|)
      ensures r == Mapped && HeldBytes(minVma, maxVma, |image|) == |image| ==> copied
      ensures copied ==> forall va: nat | va < U32 :: Walk(accelerator.Mem(), top, va) == Walk(aspace.Sp().mem, top, va)
      ensures copied ==> HardwareAgrees(aspace.Sp().mem, accelerator.Mem(), top)
      ensures r == Mapped ==> KernelMapped(old(aspace.Lay()), aspace.Sp().mem, top, minVma, maxVma, |image|, p)
      ensures copied ==> KernelMapped(old(aspace.Lay()), accelerator.Mem(), top, minVma, maxVma, |image|, p)
      ensures 0 < p.numThreads && 0 < p.numWarps && StackBytes(p.numWarps, p.numThreads, p.stackLog2) <= p.stackBase
      ensures r == Mapped ==> SlotsMapped(aspace.Sp().mem, top, p)
      ensures copied ==> SlotsMapped(accelerator.Mem(), top, p)
      ensures copied ==> AllInside(aspace.Sp().mem, top, minVma, |image|)
      ensures copied ==> Fetched(aspace.Sp().mem, accelerator.Mem(), top, minVma, |image|) == image
      ensures r == Mapped && !copied ==> PartlyPlaced(aspace.Sp().mem, old(accelerator.Mem()), accelerator.Mem(), top, minVma, image)
      ensures r == Mapped || r == AlreadyMapped || aspace.OutOfFrames()
      ensures p.Small() && Vacant(old(aspace.Sp()).mem, top, p.Regions(minVma, maxVma, |image|)) ==> r != AlreadyMapped
      ensures r != Mapped ==> accelerator.Mem() == old(accelerator.Mem())
    {
      hide *;
      Sizes();
      Opened(top);
      OkBounds(minVma, maxVma, |image|);
      PlatformOk(aspace.Lay(), p);
      ghost var l, s, k, dump := aspace.Lay(), aspace.Sp(), 0, map[];
      copied := false;
      r := MapKernel(top, minVma, maxVma, |image|, p);
      if r == Mapped {
        OpenProgress(l, s, top);
        Opened(top);
        aspace.OpenValid();
        aspace.OpenAlloc();
        aspace.LayIs();
        ghost var s1, d := aspace.Sp(), accelerator.Mem();
        ExtendsSelf(s1, top);
        GrownSelf(l, s1, top);
        OwnMapped(l, s1, top, minVma, HeldBytes(minVma, maxVma, |image|));
        copied, k := CopyHostToDev(top, minVma, image);
        aspace.LayIs();
        MoreProgress(l, s, s1, top);
        CopiedWhenMapped(s1.mem, top, minVma, |image|, k);
        if !copied {
          PlacedSome(s1.mem, d, accelerator.Mem(), top, minVma, image, k);
          return;
        }
        assert image[..k] == image;
        Opened(top);
        dump := UploadPageTable(top);
        aspace.SpIs();
        aspace.LayIs();
        MoreProgress(l, s, s1, top);
        ImageOnDevice(l, s1, d, dump, top, minVma, image);
        KernelSame(l, s1.mem, accelerator.Mem(), top, minVma, maxVma, |image|, p);
        SlotsSame(s1.mem, accelerator.Mem(), top, p);
      }
    }

    /** The first bytes of the content were stored. */
    ghost predicate PartlyPlaced(m: Mem, d: Mem, e: Mem, r: nat, va: nat, content: seq<byte>)
      requires IsFrame(r)
    {
      exists k | 0 <= k < |content| :: AllInside(m, r, va, |content[..k]|) && e == Placed(m, d, r, va, content[..k])
    }

    lemma PlacedSome(m: Mem, d: Mem, e: Mem, r: nat, va: nat, content: seq<byte>, k: nat)
      requires IsFrame(r) && k < |content| && AllInside(m, r, va, k) && e == Placed(m, d, r, va, content[..k])
      ensures PartlyPlaced(m, d, e, r, va, content)
    {
      hide AllInside, Placed;
      assert |content[..k]| == k;
    }

    /** A transfer ends early exactly when some byte is not mapped. */
    lemma CopiedWhenMapped(m: Mem, r: nat, va: nat, n: nat, k: nat)
      requires IsFrame(r) && AllInside(m, r, va, k) && k <= n && (k < n ==> Walk(m, r, After(va, k)).Fault?)
      ensures k == n <==> MappedBytes(m, r, va, n)
    {
      hide Walk, After, IsFrame;
    }

    /** An empty page table, and a heap that starts at the first page behind the image. */
    method AllocateKernel(maxVma: nat) returns (top: Option<nat>, heap: HeapManager?)
      requires Valid() && maxVma + PAGE_SIZE <= U32
      modifies aspace`own, aspace.scratchpad, aspace.pageAllocator.Repr
      ensures Valid() && fresh(aspace.pageAllocator.Repr - old(aspace.pageAllocator.Repr))
      ensures top.None? <==> heap == null
      ensures top.None? ==> Leaked(aspace.Lay(), old(aspace.Sp()), aspace.Sp(), 0) && aspace.OutOfFrames()
      ensures top.Some? ==> NewTable(aspace.Lay(), old(aspace.Sp()), aspace.Sp(), top.value)
      ensures top.Some? ==> IsRoot(aspace.Sp(), top.value) && IsFrame(top.value) && Extends(old(aspace.Sp()), aspace.Sp(), top.value)
      ensures top.Some? ==> forall p | 0 <= p < PAGES :: Target(aspace.Sp().mem, top.value, p) == None
      ensures heap != null ==> fresh(heap) && heap.Valid() && heap.aspace == aspace && heap.top == top.value
      ensures heap != null ==> heap.vm.nextAddress == heap.vm.baseAddress == RoundUp(maxVma) && heap.ranges == []
    {
      hide *;
      Sizes();
      OpenedHere();
      aspace.OpenValid();
      aspace.OpenAlloc();
      aspace.LayIs();
      ghost var l, s, taken := aspace.Lay(), aspace.Sp(), {};
      top, taken := aspace.AllocatePageTable();
      aspace.LayIs();
      heap := null;
      Closed();
      if top.Some? {
        FreshFrame(l, Take(s, taken), top.value);
        NewRootEmpty(l, s, taken, top.value);
        NewTableIs(l, s, aspace.Sp(), top.value, taken);
        HeapBase(maxVma);
        heap := new HeapManager(aspace, top.value, RoundUp(maxVma) % U32);
        Closed();
      } else {
        NoFrameLeft(l, s, taken, 0);
      }
    }

    lemma NewTableIs(l: Layout, s: Space, s': Space, r: nat, taken: set<nat>)
      requires TakenOk(l, s, taken) && r in taken && Fresh(l, Take(s, taken), r) && forall f <- taken :: f == r || InHole(l.holes, f)
      requires IsFrame(r) && s' == NewRoot(Take(s, taken), r)
      ensures NewTable(l, s, s', r)
    {
      hide IsFrame, InHole, NewRoot;
      assert NewTableFrom(l, s, s', r, taken);
    }

    /** Frees the page table of a kernel; its heap is forgotten. Device memory stays as it is. */
    method FreeKernel(top: nat)
      requires Valid() && IsRoot(aspace.Sp(), top)
      modifies aspace`own, aspace.scratchpad, aspace.pageAllocator.Repr
      ensures Valid() && fresh(aspace.pageAllocator.Repr - old(aspace.pageAllocator.Repr))
      ensures aspace.Sp() == DropRoot(old(aspace.Sp()), top) && accelerator.Mem() == old(accelerator.Mem())
    {
      hide *;
      OpenedHere();
      ghost var released;
      released := aspace.FreePageTable(top);
      Closed();
    }

    lemma OpenedHere()
      requires Valid()
      ensures aspace.Valid() && accelerator.Valid() && accelerator.data !in aspace.pageAllocator.Repr
    {
      hide AddressSpaceManager.Valid;
    }

    lemma FreshFrame(l: Layout, s: Space, f: nat)
      requires Fresh(l, s, f)
      ensures IsFrame(f)
    {
    }
  }
}
