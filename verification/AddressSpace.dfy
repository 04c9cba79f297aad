/** Page tables in the scratchpad, and the operations that build, walk, dump and free them.

  Every operation is proved against values of type Space: the memory, the frames in use, and who owns them. */
module AddressSpace {
  import opened Base
  import opened Bits
  import opened Memory
  import opened Sv32
  import opened Translation
  import opened Holes
  import opened HoleFrames
  import opened HoleRuns
  import opened PageTables
  import opened Mappings
  import opened Trees
  import opened Dumps
  import opened Scratchpad
  import opened VortexAllocator
  import AllocatorSpec
  import opened FrameAllocation

  lemma FrameConfigOk(c: AllocatorSpec.Config)
    requires FrameConfig(c)
    ensures c.Ok()
  {
  }

  /** Frames in holes aside, the frames taken for a failed request do not change what is left. */
  lemma NothingLeft(l: Layout, used: set<nat>, taken: set<nat>)
    requires forall f <- taken :: InHole(l.holes, f)
    ensures AllUsed(l, used + taken) ==> NoneLeft(l, used)
  {
    hide InHole, IsFrame;
  }

  lemma SomethingLeft(l: Layout, used: set<nat>, f: nat)
    requires InRange(l, f) && !InHole(l.holes, f) && f !in used
    ensures !NoneLeft(l, used)
  {
    hide InHole, IsFrame;
  }

  /** After the frames t0 were taken for f nothing is left exactly when f was the last. */
  lemma LastOne(l: Layout, used: set<nat>, t0: set<nat>, f: nat)
    requires InRange(l, f) && !InHole(l.holes, f) && f !in used && f in t0 && forall g <- t0 :: g == f || InHole(l.holes, g)
    ensures NoneLeft(l, used + t0) <==> OneLeft(l, used)
  {
    hide InHole, IsFrame;
    if NoneLeft(l, used + t0) {
      assert Left(l, used, f) && NoneLeft(l, used + {f});
    }
  }

  /** Mapped, or why not: the page is mapped already, or no frame is left for a node or for the page itself. */
  datatype MapOutcome = Mapped | AlreadyMapped | NoNode | NoFrame

  /** A frame came into use that no page table owns, and that lies in no hole. */
  ghost predicate Leaks(l: Layout, s: Space, s': Space) {
    exists g :: g in s'.used && g !in s.used && g !in s'.own && !InHole(l.holes, g)
  }

  /** The root of r has no node for va. */
  ghost predicate Nodeless(m: Mem, r: nat, va: nat)
    requires IsFrame(r) && va < U32
  {
    VpnBounds(va);
    !PteValid(Pte(m, r, VaVpn(va, 1)))
  }

  /** There is a frame for the page of va, but the page is mapped already, or the frame is the last and a node is missing. */
  ghost predicate Wasted(l: Layout, s: Space, r: nat, va: nat)
    requires IsFrame(r) && va < U32 && va / PAGE_SIZE < PAGES
  {
    !NoneLeft(l, s.used) && (Target(s.mem, r, va / PAGE_SIZE).Some? || (Nodeless(s.mem, r, va) && OneLeft(l, s.used)))
  }

  /** Mapping a page a second time wastes a frame whenever one is left. */
  lemma MappedTwice(l: Layout, s: Space, s': Space, r: nat, va: nat, f: nat)
    requires IsRoot(s, r) && IsFrame(r) && va < U32 && va / PAGE_SIZE < PAGES && NewPage(l, s, s', r, va / PAGE_SIZE, f)
    requires !NoneLeft(l, s'.used)
    ensures Wasted(l, s', r, va)
  {
    hide Entry, PtePa, NoneLeft, OneLeft, Nodeless, IsRoot, IsFrame, Grown, Counted;
    assert WroteAt(s, s', r, va / PAGE_SIZE, [f], r, va / PAGE_SIZE);
  }

  lemma NoLeak(l: Layout, s: Space, t0: set<nat>)
    requires forall g <- t0 :: InHole(l.holes, g)
    ensures !Leaks(l, s, Take(s, t0))
  {
    hide InHole;
  }

  lemma LeakIs(l: Layout, s: Space, s': Space, f: nat)
    requires f in s'.used && f !in s.used && f !in s'.own && !InHole(l.holes, f)
    ensures Leaks(l, s, s')
  {
    hide InHole;
  }

  /** The holes are the I/O region and local memory, with their ends; an empty region is none. When both start at the same
    address, the second replaces the first. */
  ghost predicate HolesAt(holes: map<nat, nat>, ioBase: nat, ioSize: nat, lmemBase: nat, lmemSize: nat) {
    forall a: nat :: InHole(holes, a) <==>
      (0 < ioSize && !(ioBase == lmemBase && 0 < lmemSize) && ioBase <= a <= ioBase + ioSize) ||
      (0 < lmemSize && lmemBase <= a <= lmemBase + lmemSize)
  }

  lemma TwoHolesAt(holes: map<nat, nat>, ioBase: nat, ioSize: nat, lmemBase: nat, lmemSize: nat)
    requires holes == (var io := if 0 < ioSize then map[ioBase := ioSize] else map[];
      if 0 < lmemSize then io[lmemBase := lmemSize] else io)
    ensures HolesAt(holes, ioBase, ioSize, lmemBase, lmemSize)
  {
    forall a: nat ensures InHole(holes, a) <==>
      (0 < ioSize && !(ioBase == lmemBase && 0 < lmemSize) && ioBase <= a <= ioBase + ioSize) ||
      (0 < lmemSize && lmemBase <= a <= lmemBase + lmemSize)
    {
      assert 0 < ioSize ==> ioBase in holes;
      assert 0 < lmemSize ==> lmemBase in holes;
    }
  }

  class AddressSpaceManager {
    const pageAllocator: VortexMemoryAllocator
    const scratchpad: ScratchpadMemory
    const holeList: HoleList
    ghost var own: map<nat, Role>

    ghost function Lay(): Layout
      reads holeList
    {
      Layout(pageAllocator.baseAddress, pageAllocator.baseAddress + pageAllocator.capacity, holeList.holes)
    }

    ghost function Used(): set<nat>
      reads pageAllocator`view
    {
      AllocatorSpec.Frames(pageAllocator.view)
    }

    ghost function Sp(): Space
      reads `own, scratchpad`pageContent, pageAllocator`view
    {
      Space(scratchpad.Mem(), Used(), own)
    }

    /** No free block of the allocator holds a frame, and no room for another page is left. */
    ghost predicate OutOfFrames()
      reads pageAllocator`view
    {
      pageAllocator.Cfg().Ok() && AllocatorSpec.Exhausted(pageAllocator.Cfg(), pageAllocator.view, PAGE_SIZE)
    }

    /** Every page of the allocator holds one frame. */
    predicate OneFramePages() {
      pageAllocator.pageAlign == PAGE_SIZE
    }

    /** The one retry for a frame in a hole is enough, now and later. */
    ghost predicate HolesOk()
      reads pageAllocator`view, holeList
    {
      RetryEnough(Lay(), Used(), OneFramePages())
    }

    /** The allocator serves frames only and shares no object with the rest. */
    ghost predicate AllocSide()
      reads pageAllocator, pageAllocator.Repr
    {
      && pageAllocator.Valid() && FrameConfig(pageAllocator.Cfg()) && FrameState(pageAllocator.Cfg(), pageAllocator.view)
      && this !in pageAllocator.Repr && scratchpad !in pageAllocator.Repr && holeList !in pageAllocator.Repr
    }

    ghost predicate Valid()
      reads this, scratchpad, holeList, pageAllocator, pageAllocator.Repr
    {
      AllocSide() && scratchpad.Valid() && !scratchpad.locked && HolesOk() && Inv(Lay(), Sp())
    }

    constructor (baseAddress: nat, capacity: nat, pageAlign: nat, blockAlign: nat,
                 ioBase: nat, ioSize: nat, lmemBase: nat, lmemSize: nat)
      requires FrameConfig(AllocatorSpec.Config(baseAddress, capacity, pageAlign, blockAlign))
      ensures Valid() <==> OneHoleFrame(Lay()) || (OneFramePages() && Spaced(Lay()))
      ensures AllocSide() && scratchpad.Valid() && !scratchpad.locked && Inv(Lay(), Sp())
      ensures fresh(pageAllocator.Repr) && fresh(scratchpad) && fresh(holeList)
      ensures pageAllocator.Cfg() == AllocatorSpec.Config(baseAddress, capacity, pageAlign, blockAlign)
      ensures own == map[] && Used() == {} && scratchpad.Mem() == ZERO
      ensures Lay().lo == baseAddress && Lay().hi == baseAddress + capacity
      ensures HolesAt(Lay().holes, ioBase, ioSize, lmemBase, lmemSize)
    {
      hide VortexMemoryAllocator.Valid, FrameState, FrameConfig, Inv, OneHoleFrame, Spaced, RetryEnough,
        AllocatorSpec.Frames, StoreOk, MemOf;
      FrameConfigOk(AllocatorSpec.Config(baseAddress, capacity, pageAlign, blockAlign));
      pageAllocator := new VortexMemoryAllocator(baseAddress, capacity, pageAlign, blockAlign);
      scratchpad := new ScratchpadMemory();
      holeList := new HoleList();
      own := map[];
      new;
      holeList.AddHole(ioBase, ioSize);
      holeList.AddHole(lmemBase, lmemSize);
      EmptyState(pageAllocator.Cfg(), Lay(), scratchpad.Mem());
      NothingUsed(Lay(), OneFramePages());
      TwoHolesAt(holeList.holes, ioBase, ioSize, lmemBase, lmemSize);
    }

    lemma EmptyState(c: AllocatorSpec.Config, l: Layout, m: Mem)
      ensures FrameState(c, []) && AllocatorSpec.Frames([]) == {} && Inv(l, Space(m, {}, map[]))
    {
    }

    // ---- frames ----

    lemma OpenValid()
      requires Valid()
      ensures AllocSide() && scratchpad.Valid() && !scratchpad.locked && HolesOk() && Inv(Lay(), Sp())
    {
      hide AllocSide, HolesOk, Inv, StoreOk;
    }

    lemma CloseValid(l: Layout, sp: Space)
      requires AllocSide() && scratchpad.Valid() && !scratchpad.locked && l == Lay() && sp == Sp()
      requires HolesOk() && Inv(l, sp)
      ensures Valid()
    {
      hide AllocSide, HolesOk, Inv, StoreOk;
    }

    lemma OpenAlloc()
      requires AllocSide()
      ensures pageAllocator.Valid() && pageAllocator in pageAllocator.Repr
      ensures this !in pageAllocator.Repr && scratchpad !in pageAllocator.Repr && holeList !in pageAllocator.Repr
      ensures FrameConfig(pageAllocator.Cfg()) && FrameState(pageAllocator.Cfg(), pageAllocator.view)
    {
      hide FrameConfig, FrameState;
    }

    /** Allocates one frame of the page allocator, which may be in a hole. With pages of one frame it is the lowest that is
      not in use. */
    method AtomicAllocate() returns (pa: Option<nat>)
      requires AllocSide()
      modifies pageAllocator.Repr
      ensures AllocSide() && fresh(pageAllocator.Repr - old(pageAllocator.Repr))
      ensures pa.None? ==> Used() == old(Used()) && OutOfFrames()
      ensures pa.Some? ==> Used() == old(Used()) + {pa.value} && pa.value !in old(Used())
      ensures pa.Some? ==> InRange(Lay(), pa.value) && 0 < pa.value
      ensures OneFramePages() ==> if pa.Some? then Lowest(Lay(), old(Used()), pa.value) else AllUsed(Lay(), Used())
    {
      hide VortexMemoryAllocator.Valid, FrameState, FrameConfig, AllocatorSpec.Frames, AllocatorSpec.Allocates,
        AllocatorSpec.Exhausted, Lowest, AllUsed, InRange, IsFrame;
      OpenAlloc();
      FrameConfigOk(pageAllocator.Cfg());
      FrameSound(pageAllocator.Cfg(), pageAllocator.view);
      pa := pageAllocator.Allocate(PAGE_SIZE);
      if pa.Some? {
        AllocateFrame(pageAllocator.Cfg(), old(pageAllocator.view), pa.value, pageAllocator.view);
        FrameLimits(pa.value);
        LowestIs(old(pageAllocator.view), pageAllocator.view, pa.value);
      } else {
        AllUsedIs();
      }
    }

    lemma FrameLimits(f: nat)
      requires FrameConfig(pageAllocator.Cfg())
      requires f % PAGE_SIZE == 0 && pageAllocator.baseAddress <= f && f + PAGE_SIZE <= pageAllocator.Cfg().Limit()
      ensures InRange(Lay(), f) && 0 < f
    {
    }

    lemma LowestIs(ps: AllocatorSpec.Pages, ps': AllocatorSpec.Pages, a: nat)
      requires var c := pageAllocator.Cfg(); FrameConfig(c) && FrameState(c, ps) && AllocatorSpec.Allocates(c, ps, PAGE_SIZE, a, ps')
      requires a !in AllocatorSpec.Frames(ps) && InRange(Lay(), a)
      ensures OneFramePages() ==> Lowest(Lay(), AllocatorSpec.Frames(ps), a)
    {
      hide FrameState, FrameConfig, AllocatorSpec.Frames, AllocatorSpec.Allocates;
      if OneFramePages() {
        forall g: nat | InRange(Lay(), g) && g < a ensures g in AllocatorSpec.Frames(ps) {
          LowestFrame(pageAllocator.Cfg(), ps, a, ps', g);
        }
      }
    }

    lemma AllUsedIs()
      requires var c := pageAllocator.Cfg();
        FrameConfig(c) && FrameState(c, pageAllocator.view) && AllocatorSpec.Exhausted(c, pageAllocator.view, PAGE_SIZE)
      ensures OneFramePages() ==> AllUsed(Lay(), Used())
    {
      hide FrameState, FrameConfig, AllocatorSpec.Frames, AllocatorSpec.Exhausted;
      if OneFramePages() {
        ExhaustedFrames(pageAllocator.Cfg(), pageAllocator.view);
      }
    }

    lemma LayIs()
      ensures Lay() == Layout(pageAllocator.baseAddress, pageAllocator.baseAddress + pageAllocator.capacity, holeList.holes)
    {
    }

    lemma RangeIs(f: nat)
      requires InRange(Lay(), f)
      ensures IsFrame(f) && Lay().lo <= f < Lay().hi
    {
    }

    /** A first result inside a hole stays in use; the one retry gives the result. It lies in a hole again exactly when two
      frames in holes were taken: with pages of one frame, when these were the lowest two. When the retry was enough, it
      lies in none, and the retry stays enough. */
    method AllocateOnePage() returns (pa: Option<nat>, ghost taken: set<nat>)
      requires AllocSide()
      modifies pageAllocator.Repr
      ensures AllocSide() && fresh(pageAllocator.Repr - old(pageAllocator.Repr))
      ensures Used() == old(Used()) + taken && taken !! old(Used())
      ensures forall f <- taken :: IsFrame(f) && 0 < f && Lay().lo <= f < Lay().hi
      ensures pa.Some? ==> pa.value in taken && InRange(Lay(), pa.value) && Served(Lay(), old(Used()), taken, pa.value)
      ensures pa.None? ==> OutOfFrames() && forall f <- taken :: InHole(Lay().holes, f)
      ensures OneFramePages() && pa.Some? ==> (InHole(Lay().holes, pa.value) <==> TwoHolesNext(Lay(), old(Used())))
      ensures OneFramePages() && pa.None? ==> NoneLeft(Lay(), old(Used()))
      ensures OneFramePages() && taken != {} ==> Asks(Lay(), old(Used()), Used())
      ensures old(HolesOk()) ==> HolesOk() && (pa.Some? ==> !InHole(Lay().holes, pa.value))
      ensures old(HolesOk()) ==> forall f <- taken :: pa == Some(f) || InHole(Lay().holes, f)
    {
      hide *;
      OpenAlloc();
      ghost var l, used, lowest := Lay(), Used(), OneFramePages();
      LayIs();
      HolesAre();
      taken := {};
      pa := AtomicAllocate();
      LayIs();
      HolesAre();
      if pa.None? {
        NothingLeft(l, used, taken);
        assert used + taken == Used();
        return;
      }
      ghost var first := pa.value;
      RangeIs(first);
      taken := {first};
      if RetryEnough(l, used, lowest) {
        RetryKept(l, used, lowest, first);
      }
      var inHole := holeList.AddrInHole(pa.value);
      if inHole {
        OpenAlloc();
        pa := AtomicAllocate();
        if pa.Some? {
          RangeIs(pa.value);
          taken := taken + {pa.value};
          ServedLater(l, used, first, pa.value);
          if OneFramePages() {
            ServedInHole(l, used, first, pa.value);
            AskedTwice(l, used, first, pa.value);
          }
          if RetryEnough(l, used, lowest) {
            RetryKept(l, used + {first}, lowest, pa.value);
            ServedOutside(l, used, lowest, taken, pa.value);
          }
        } else {
          NothingLeft(l, used, taken);
          if OneFramePages() {
            AskedLast(l, used, first);
          }
        }
      } else {
        ServedFirst(l, used, first);
        if OneFramePages() {
          AskedOnce(l, used, first);
        }
      }
      LayIs();
      HolesAre();
    }

    lemma HolesAre()
      ensures HolesOk() <==> RetryEnough(Lay(), Used(), OneFramePages())
    {
      hide Lay, Used, RetryEnough;
    }

    /** Releases a frame, unless it lies in a hole; a frame that is not in use is left alone. */
    method ReleaseOnePage(addr: nat)
      requires AllocSide()
      modifies pageAllocator.Repr
      ensures AllocSide() && fresh(pageAllocator.Repr - old(pageAllocator.Repr))
      ensures Used() == if InHole(Lay().holes, addr) then old(Used()) else old(Used()) - {addr}
      ensures old(HolesOk()) ==> HolesOk()
    {
      hide RetryEnough, InHole, VortexMemoryAllocator.Valid, FrameState, FrameConfig, AllocatorSpec.Frames, AllocatorSpec.Without;
      OpenAlloc();
      var inHole := holeList.AddrInHole(addr);
      if !inHole {
        if HolesOk() {
          RetryReleased(Lay(), Used(), OneFramePages(), {addr});
        }
        ReleaseFrames(pageAllocator.Cfg(), pageAllocator.view, {addr});
        var ok := pageAllocator.Release(addr);
      }
    }

    // ---- entries ----

    method ReadPte(node: nat, i: nat) returns (pte: nat)
      requires scratchpad.Valid() && scratchpad.locked && IsFrame(node) && i < PTES
      modifies scratchpad`pageContent
      ensures scratchpad.Valid() && scratchpad.Mem() == old(scratchpad.Mem())
      ensures pte == Pte(scratchpad.Mem(), node, i) && pte < U32
      ensures node + i * PTE_SIZE + PTE_SIZE <= U32 && LittleEndian(scratchpad.Mem(), node + i * PTE_SIZE, pte)
    {
      hide MemOf, StoreOk, Bytes, Decode, LittleEndian;
      var bytes := scratchpad.Read(node + i * PTE_SIZE, PTE_SIZE);
      pte := Decode(bytes);
      EntryBytes(scratchpad.Mem(), node, i);
    }

    method WritePte(node: nat, i: nat, pte: nat)
      requires scratchpad.Valid() && scratchpad.locked && IsFrame(node) && i < PTES && pte < U32
      modifies scratchpad`pageContent
      ensures scratchpad.Valid() && scratchpad.Mem() == SetPte(old(scratchpad.Mem()), node, i, pte)
      ensures node + i * PTE_SIZE + PTE_SIZE <= U32 && LittleEndian(scratchpad.Mem(), node + i * PTE_SIZE, pte)
    {
      hide MemOf, StoreOk, Written, Encode, LittleEndian, Pte;
      scratchpad.Write(node + i * PTE_SIZE, Encode(pte));
      PteSet(old(scratchpad.Mem()), node, i, pte, node, i);
      EntryBytes(scratchpad.Mem(), node, i);
    }

    /** The four bytes of an entry are those of its value, the lowest first. */
    lemma EntryBytes(m: Mem, node: nat, i: nat)
      requires IsFrame(node) && i < PTES
      ensures node + i * PTE_SIZE + PTE_SIZE <= U32 && LittleEndian(m, node + i * PTE_SIZE, Pte(m, node, i))
    {
      hide LittleEndian, Word;
      WordBytes(m, node + i * PTE_SIZE);
    }

    method ReadPteAtomic(node: nat, i: nat) returns (pte: nat)
      requires scratchpad.Valid() && !scratchpad.locked && IsFrame(node) && i < PTES
      modifies scratchpad
      ensures scratchpad.Valid() && !scratchpad.locked && scratchpad.Mem() == old(scratchpad.Mem())
      ensures pte == Pte(scratchpad.Mem(), node, i) && pte < U32
      ensures node + i * PTE_SIZE + PTE_SIZE <= U32 && LittleEndian(scratchpad.Mem(), node + i * PTE_SIZE, pte)
    {
      hide MemOf, StoreOk, Bytes, Decode, LittleEndian;
      var bytes := scratchpad.ReadAtomic(node + i * PTE_SIZE, PTE_SIZE);
      pte := Decode(bytes);
      EntryBytes(scratchpad.Mem(), node, i);
    }

    // ---- translation ----

    method PageTableWalk(va: nat, root: nat) returns (w: Walked)
      requires scratchpad.Valid() && !scratchpad.locked && IsFrame(root) && va < U32
      modifies scratchpad
      ensures scratchpad.Valid() && !scratchpad.locked && scratchpad.Mem() == old(scratchpad.Mem())
      ensures w == Walk(scratchpad.Mem(), root, va)
    {
      hide ScratchpadMemory.Valid, ScratchpadMemory.Mem, Pte, PteValid, PteReadable, PteWritable, PteIsLeaf, PtePa, Misaligned,
        SuperpagePa, PagePa, VaVpn, IsFrame;
      var currentPa := root;
      var level := 1;
      while level >= 0
        invariant -1 <= level <= 1 && IsFrame(currentPa)
        invariant scratchpad.Valid() && !scratchpad.locked && scratchpad.Mem() == old(scratchpad.Mem())
        invariant Walk(old(scratchpad.Mem()), root, va) ==
          if level >= 0 then WalkFrom(old(scratchpad.Mem()), currentPa, va, level) else Fault(NoLeaf)
        decreases level
      {
        var pte := ReadPteAtomic(currentPa, VaVpn(va, level));
        if !PteValid(pte) {
          return Fault(NotValid);
        }
        if !PteReadable(pte) && PteWritable(pte) {
          return Fault(WriteWithoutRead);
        }
        if PteIsLeaf(pte) {
          if !PteReadable(pte) {
            return Fault(NotReadable);
          }
          if level > 0 {
            if Misaligned(pte) {
              return Fault(MisalignedSuperpage);
            }
            return Pa(SuperpagePa(pte, va));
          }
          return Pa(PagePa(pte, va));
        }
        assert WalkPte(pte, va, level) == Next(PtePa(pte));
        FrameOf(pte);
        currentPa := PtePa(pte);
        level := level - 1;
      }
      return Fault(NoLeaf);
    }

    method Translate(va: nat, root: nat) returns (pa: Option<nat>)
      requires scratchpad.Valid() && !scratchpad.locked && IsFrame(root) && va < U32
      modifies scratchpad
      ensures scratchpad.Valid() && !scratchpad.locked && scratchpad.Mem() == old(scratchpad.Mem())
      ensures pa == Loaded(Walk(scratchpad.Mem(), root, va))
    {
      hide Walk, MemOf, StoreOk;
      var w := PageTableWalk(va, root);
      return match w case Pa(p) => Some(p) case Fault(_) => None;
    }

    // ---- new tables and nodes ----

    /** A frame for a root or a node. The flag good says that the page tables are right; without it nothing is promised
      about them. */
    method AllocatePageTableNode(ghost good: bool) returns (pa: Option<nat>, ghost taken: set<nat>)
      requires AllocSide() && (good ==> HolesOk() && Inv(Lay(), Sp()))
      modifies pageAllocator.Repr
      ensures AllocSide() && fresh(pageAllocator.Repr - old(pageAllocator.Repr)) && (pa.Some? ==> IsFrame(pa.value))
      ensures good ==> HolesOk() && Sp() == Take(old(Sp()), taken) && Inv(Lay(), Sp())
      ensures good ==> TakenOk(Lay(), old(Sp()), taken) && forall f <- taken :: pa == Some(f) || InHole(Lay().holes, f)
      ensures good && pa.Some? ==> pa.value in taken && Fresh(Lay(), Sp(), pa.value)
      ensures good && pa.None? ==> OutOfFrames()
      ensures good && OneFramePages() ==> (pa.None? <==> NoneLeft(Lay(), old(Used())))
    {
      hide AllocSide, Inv, HolesOk, InHole, ScratchpadMemory.Mem, IsFrame, Used, OutOfFrames, InRange, Served,
        NoneLeft, TwoHolesNext, Asks;
      OpenAlloc();
      ghost var l, used := Lay(), Used();
      pa, taken := AllocateOnePage();
      if pa.Some? {
        RangeIs(pa.value);
      }
      if good {
        if pa.Some? {
          SomethingLeft(l, used, pa.value);
        }
        TakeInv(Lay(), old(Sp()), taken);
        OwnUsed(Lay(), old(Sp()));
      }
    }

    /** Creates an empty page table; its address, or None when no frame is left. */
    method AllocatePageTable() returns (r: Option<nat>, ghost taken: set<nat>)
      requires Valid()
      modifies `own, scratchpad, pageAllocator.Repr
      ensures Valid() && fresh(pageAllocator.Repr - old(pageAllocator.Repr))
      ensures TakenOk(Lay(), old(Sp()), taken) && forall f <- taken :: r == Some(f) || InHole(Lay().holes, f)
      ensures r.None? ==> Sp() == Take(old(Sp()), taken) && OutOfFrames()
      ensures r.Some? ==> r.value in taken && Fresh(Lay(), Take(old(Sp()), taken), r.value)
      ensures r.Some? ==> Sp() == NewRoot(Take(old(Sp()), taken), r.value)
      ensures OneFramePages() ==> (r.None? <==> NoneLeft(Lay(), old(Used())))
    {
      hide *;
      OpenValid();
      OpenAlloc();
      r, taken := AllocatePageTableNode(true);
      OpenAlloc();
      SpIs();
      if r.Some? {
        NewRootInv(Lay(), Sp(), r.value);
        NewRootIs(Lay(), Sp(), r.value);
        scratchpad.WriteAtomic(r.value, Zeros());
        own := own[r.value := Root];
        SpIs();
      }
      CloseValid(Lay(), Sp());
    }

    lemma SpIs()
      ensures Sp() == Space(scratchpad.Mem(), Used(), own)
    {
    }

    lemma NewRootIs(l: Layout, s: Space, f: nat)
      requires Fresh(l, s, f)
      ensures IsFrame(f) && f + PAGE_SIZE <= U32
      ensures NewRoot(s, f) == Space(Written(s.mem, f, Zeros()), s.used, s.own[f := Root])
    {
    }

    // ---- mapping ----

    /** The node under entry i of a root, created when the entry is not valid. */
    method NextNode(top: nat, i: nat, ghost good: bool) returns (node: Option<nat>, ghost taken: set<nat>)
      requires AllocSide() && scratchpad.Valid() && scratchpad.locked && IsFrame(top) && i < PTES
      requires good ==> HolesOk() && Inv(Lay(), Sp()) && IsRoot(Sp(), top)
      modifies `own, scratchpad`pageContent, pageAllocator.Repr
      ensures AllocSide() && scratchpad.Valid() && fresh(pageAllocator.Repr - old(pageAllocator.Repr))
      ensures node.Some? ==> IsFrame(node.value)
      ensures good ==> HolesOk() && Inv(Lay(), Sp())
      ensures good ==> TakenOk(Lay(), old(Sp()), taken) && forall f <- taken :: f in own || InHole(Lay().holes, f)
      ensures good && node.None? ==> OutOfFrames() && Sp() == Take(old(Sp()), taken) && !PteValid(Pte(old(Sp()).mem, top, i))
      ensures good && node.Some? ==> Pte(Sp().mem, top, i) == node.value / PAGE_SIZE * 1024 + 1
      ensures good && node.Some? ==> Under(Sp(), top, i, node.value) && Descends(Lay(), old(Sp()), Sp(), top, i, taken)
      ensures good && OneFramePages() ==> (node.None? <==> !PteValid(Pte(old(Sp()).mem, top, i)) && NoneLeft(Lay(), old(Used())))
    {
      hide *;
      OpenAlloc();
      SpIs();
      taken := {};
      NothingTaken(Lay(), Sp());
      var pte := ReadPte(top, i);
      SpIs();
      if PteValid(pte) {
        if good {
          ExistingNode(Lay(), Sp(), top, i);
          DescendsOld(Lay(), Sp(), top, i);
        }
      } else {
        var newPa;
        newPa, taken := AllocatePageTableNode(good);
        if newPa.None? {
          return None, taken;
        }
        OpenAlloc();
        if good {
          TakeKeepsRoot(old(Sp()), taken, top);
          NewNodeIs(Lay(), Sp(), top, i, newPa.value);
          NewNodeInv(Lay(), Sp(), top, i, newPa.value);
          DescendsNew(Lay(), old(Sp()), top, i, taken, newPa.value);
        }
        SpIs();
        FrameSize(newPa.value);
        scratchpad.Write(newPa.value, Zeros());
        pte := MakePte(newPa.value, V);
        WritePte(top, i, pte);
        if good {
          own := own[newPa.value := Node(top, i)];
        }
        SpIs();
      }
      FrameOf(pte);
      node := Some(PtePa(pte));
      if good {
        PointerIs(Lay(), Sp(), top, i, node.value);
      }
    }

    /** The entry of a node has the node's page number, and V alone. */
    lemma PointerIs(l: Layout, s: Space, r: nat, i: nat, n: nat)
      requires Inv(l, s) && Under(s, r, i, n)
      ensures Pte(s.mem, r, i) == n / PAGE_SIZE * 1024 + 1
    {
      hide Pte, PteValid, PteIsLeaf, PteReadable, PtePa, InHole, EntriesOk, And, Or, Shl32;
      assert RoleOk(s, n);
    }

    lemma FrameSize(f: nat)
      requires IsFrame(f)
      ensures f < U32 && f + PAGE_SIZE <= U32
    {
    }

    lemma NothingTaken(l: Layout, s: Space)
      ensures TakenOk(l, s, {})
    {
    }

    lemma RootFrame(s: Space, r: nat)
      requires IsRoot(s, r)
      ensures IsFrame(r) && r in s.own && s.own[r].Root?
    {
    }

    lemma TakeKeepsRoot(s: Space, F: set<nat>, r: nat)
      requires IsRoot(s, r)
      ensures IsRoot(Take(s, F), r) && Take(s, F).mem == s.mem
    {
    }

    /** Maps the page of va to the page of pa; a page that is mapped already is an error and changes nothing. The program
      does not check that the page may be mapped there; the page tables stay right exactly when it may, or when the
      mapping fails. The flag good says that they are right before. */
    method MapAddrInner(va: nat, pa: nat, top: nat, flags: nat, ghost good: bool) returns (r: MapOutcome, ghost taken: set<nat>)
      requires AllocSide() && scratchpad.Valid() && !scratchpad.locked && IsFrame(top) && va < U32 && pa < U32
      requires good ==> Valid() && IsRoot(Sp(), top) && Bit(flags, 1)
      modifies `own, scratchpad, pageAllocator.Repr
      ensures AllocSide() && scratchpad.Valid() && !scratchpad.locked && fresh(pageAllocator.Repr - old(pageAllocator.Repr))
      ensures r != NoFrame
      ensures good ==> (Valid() <==> r != Mapped || Mappable(Lay(), old(Sp()), va, pa))
      ensures good ==> TakenOk(Lay(), old(Sp()), taken) && forall f <- taken :: f in own || InHole(Lay().holes, f)
      ensures good ==> (r == AlreadyMapped <==> LeafPte(old(Sp()).mem, top, VaVpn(va, 1), VaVpn(va, 0)).Some?)
      ensures good && r == AlreadyMapped ==> Sp() == old(Sp())
      ensures good && r == NoNode ==> Sp() == Take(old(Sp()), taken) && OutOfFrames()
      ensures good && r == Mapped ==>
        if Mappable(Lay(), old(Sp()), va, pa) then Maps(Lay(), old(Sp()), Sp(), top, va, LeafEntry(pa, flags), taken)
        else MapsAnyway(Lay(), old(Sp()), Sp(), top, va, LeafEntry(pa, flags), taken)
      ensures good && r == Mapped ==> MapsWith(Sp().mem, top, va, pa, flags)
      ensures good && OneFramePages() ==>
        (r == NoNode <==> Nodeless(old(Sp()).mem, top, va) && NoneLeft(Lay(), old(Used())))
    {
      hide *;
      if good {
        OpenValid();
      }
      OpenAlloc();
      Indices(va);
      NodelessIs(Sp().mem, top, va);
      LayIs();
      ghost var l, able := Lay(), Mappable(Lay(), Sp(), va, pa);
      scratchpad.BeginTransaction();
      SpIs();
      var node;
      node, taken := NextNode(top, VaVpn(va, 1), good);
      OpenAlloc();
      SpIs();
      LayIs();
      if node.None? {
        if good {
          NoNodeNoLeaf(old(Sp()), top, VaVpn(va, 1), VaVpn(va, 0));
        }
        scratchpad.EndTransaction();
        r := NoNode;
      } else {
        var leafPte := LeafEntry(pa, flags);
        var existing := ReadPte(node.value, VaVpn(va, 0));
        SpIs();
        if PteValid(existing) {
          if good {
            AlreadyThere(l, old(Sp()), Sp(), top, VaVpn(va, 1), taken, node.value, VaVpn(va, 0));
          }
          scratchpad.EndTransaction();
          r := AlreadyMapped;
        } else {
          if good && able {
            MapsLast(l, old(Sp()), Sp(), top, va, node.value, pa, flags, taken);
            NewLeafIs(l, Sp(), node.value, VaVpn(va, 0), leafPte);
          } else if good {
            AnywayLast(l, old(Sp()), Sp(), top, va, node.value, pa, flags, taken);
            WriteLeafIs(Sp(), node.value, VaVpn(va, 0), leafPte);
          }
          WritePte(node.value, VaVpn(va, 0), leafPte);
          scratchpad.EndTransaction();
          r := Mapped;
          if good && able && Counted(l, PtePa(leafPte)) {
            own := own[PtePa(leafPte) := Leaf(node.value, VaVpn(va, 0))];
          }
        }
      }
      SpIs();
      LayIs();
      if good && r == Mapped && able {
        MapsToIs(l, old(Sp()), Sp(), top, va, pa, flags, taken);
        MapsWrites(l, old(Sp()), Sp(), top, va, pa, flags, taken);
      } else if good && r == Mapped {
        AnywayWrites(l, old(Sp()), Sp(), top, va, pa, flags, taken);
      }
      if good && (r != Mapped || able) {
        CloseValid(l, Sp());
      } else if good {
        Broken();
      }
    }

    lemma Broken()
      requires !Inv(Lay(), Sp())
      ensures !Valid()
    {
      hide AllocSide, HolesOk, Inv, StoreOk;
    }

    lemma WriteLeafIs(s: Space, n: nat, j: nat, pte: nat)
      requires IsFrame(n) && j < PTES && pte < U32
      ensures WriteLeaf(s, n, j, pte) == Space(SetPte(s.mem, n, j, pte), s.used, s.own)
    {
    }

    lemma NodelessIs(m: Mem, r: nat, va: nat)
      requires IsFrame(r) && va < U32
      ensures VaVpn(va, 1) < PTES && (Nodeless(m, r, va) <==> !PteValid(Pte(m, r, VaVpn(va, 1))))
    {
      hide VaVpn, PteValid, Pte;
      VpnBounds(va);
    }

    lemma TakenIs(l: Layout, s: Space, taken: set<nat>)
      requires taken !! s.used && forall f <- taken :: IsFrame(f) && 0 < f && l.lo <= f < l.hi
      ensures TakenOk(l, s, taken)
    {
    }

    lemma TakenForIs(l: Layout, s: Space, taken: set<nat>, f: nat)
      requires TakenOk(l, s, taken) && f in taken && !InHole(l.holes, f) && forall g <- taken :: g == f || InHole(l.holes, g)
      ensures TakenFor(l, s, taken, f)
    {
    }

    lemma FreshUse(s: Space, taken: set<nat>)
      requires s.own == own && s.mem == scratchpad.Mem() && Used() == s.used + taken
      ensures Sp() == Take(s, taken)
    {
    }

    /** A new frame for the page of va. A failure changes no page table. The frame taken for the page stays in use, owned by
      no page table, exactly when the page was mapped already or no frame was left for a node. */
    method AllocateOneVmPage(va: nat, top: nat, flags: nat) returns (r: MapOutcome, ghost pa: nat)
      requires Valid() && IsRoot(Sp(), top) && va < U32 && Bit(flags, 1)
      modifies `own, scratchpad, pageAllocator.Repr
      ensures Valid() && fresh(pageAllocator.Repr - old(pageAllocator.Repr)) && IsFrame(top) && va / PAGE_SIZE < PAGES
      ensures r == Mapped ==> NewPage(Lay(), old(Sp()), Sp(), top, va / PAGE_SIZE, pa)
      ensures r == Mapped ==> MarkedAt(Sp().mem, top, va / PAGE_SIZE, flags)
      ensures r != Mapped ==> Leaked(Lay(), old(Sp()), Sp(), pa)
      ensures Contained(Lay(), old(Sp()), Sp(), top) && IsRoot(Sp(), top)
      ensures r == Mapped || r == AlreadyMapped || OutOfFrames()
      ensures r == NoFrame || (r == AlreadyMapped <==> Target(old(Sp()).mem, top, va / PAGE_SIZE).Some?)
      ensures r == AlreadyMapped || r == NoNode ==> pa in Used() && pa !in old(Used()) && pa !in own && !InHole(Lay().holes, pa)
      ensures Leaks(Lay(), old(Sp()), Sp()) <==> r == AlreadyMapped || r == NoNode
      ensures OneFramePages() ==> (r == NoFrame <==> NoneLeft(Lay(), old(Used())))
      ensures OneFramePages() ==> (Leaks(Lay(), old(Sp()), Sp()) <==> Wasted(Lay(), old(Sp()), top, va))
    {
      hide *;
      Sizes();
      OpenValid();
      RootFrame(Sp(), top);
      TargetIs(Sp().mem, top, va);
      ghost var l, s := Lay(), Sp();
      OpenAlloc();
      SpIs();
      var frame;
      ghost var t0;
      frame, t0 := AllocateOnePage();
      OpenAlloc();
      FreshUse(s, t0);
      if frame.None? {
        pa := 0;
        r := NoFrame;
        TakenIs(l, s, t0);
        NoFrameLeft(l, s, t0, pa);
        NoLeak(l, s, t0);
        CloseValid(l, Sp());
      } else {
        pa := frame.value;
        RangeIs(pa);
        SomethingLeft(l, s.used, pa);
        LastOne(l, s.used, t0, pa);
        TakenIs(l, s, t0);
        TakenForIs(l, s, t0, pa);
        TakenForFacts(l, s, t0, pa, top);
        CloseValid(l, Sp());
        ghost var taken;
        r, taken := MapAddrInner(va, frame.value, top, flags, true);
        SpIs();
        if r == Mapped {
          MapsToIs(l, Take(s, t0), Sp(), top, va, pa, flags, taken);
          NewPageIs(l, s, t0, Sp(), top, va, pa, flags, taken);
          NewPageLeaksNothing(l, s, Sp(), top, va / PAGE_SIZE, pa);
        } else {
          OwnUsed(l, s);
          LeakedIs(l, s, t0, Sp(), pa, if r == AlreadyMapped then {} else taken);
          TakenStays(l, s, t0, Sp(), pa, if r == AlreadyMapped then {} else taken);
        }
      }
      WastedIs(l, s, top, va);
      if r == Mapped {
        NewPageContained(l, s, Sp(), top, va / PAGE_SIZE, pa);
        MapsMarks(Sp().mem, top, va, pa, flags);
      } else {
        LeakedContained(l, s, Sp(), top, pa);
      }
      ContainedRoot(l, s, Sp(), top);
    }

    lemma WastedIs(l: Layout, s: Space, r: nat, va: nat)
      requires IsFrame(r) && va < U32 && va / PAGE_SIZE < PAGES
      ensures Wasted(l, s, r, va) <==>
        !NoneLeft(l, s.used) && (Target(s.mem, r, va / PAGE_SIZE).Some? || (Nodeless(s.mem, r, va) && OneLeft(l, s.used)))
    {
      hide NoneLeft, OneLeft, Entry, PtePa, Nodeless;
    }

    lemma NewPageLeaksNothing(l: Layout, s: Space, s': Space, r: nat, p: nat, f: nat)
      requires NewPage(l, s, s', r, p, f)
      ensures !Leaks(l, s, s')
    {
      hide Wrote, InHole, Beneath;
    }

    lemma TakenStays(l: Layout, s: Space, t0: set<nat>, s': Space, f: nat, taken: set<nat>)
      requires TakenFor(l, s, t0, f) && s.own.Keys <= s.used && (s' == Take(s, t0) || s' == Take(Take(s, t0), taken))
      ensures f in s'.used && f !in s.used && f !in s'.own && !InHole(l.holes, f) && Leaks(l, s, s')
    {
      hide InHole;
      LeakIs(l, s, s', f);
    }

    /** New frames for the started pages of [va, va + size), which must not be mapped yet. A failure leaves a mapped prefix.
      The loop counter is 32 bits wide: beyond 2^32 - 4096 bytes it starts over, and the call fails. */
    method AllocateVmPages(va: nat, size: nat, top: nat, flags: nat)
      returns (r: MapOutcome, ghost frames: seq<nat>, ghost lost: nat)
      requires Valid() && IsRoot(Sp(), top) && va < U32 && size < U32 && Bit(flags, 1)
      modifies `own, scratchpad, pageAllocator.Repr
      ensures Valid() && fresh(pageAllocator.Repr - old(pageAllocator.Repr)) && IsFrame(top)
      ensures r == Mapped ==> size <= U32 - PAGE_SIZE && |frames| == Started(size)
      ensures r == Mapped ==> NewPages(Lay(), old(Sp()), Sp(), top, va / PAGE_SIZE, frames)
      ensures |frames| <= PAGES
      ensures r != Mapped ==> PartlyNew(Lay(), old(Sp()), Sp(), top, va / PAGE_SIZE, frames, lost)
      ensures Marked(Sp().mem, top, va / PAGE_SIZE, |frames|, flags)
      ensures Contained(Lay(), old(Sp()), Sp(), top) && IsRoot(Sp(), top)
      ensures r == Mapped || r == AlreadyMapped || OutOfFrames()
      ensures |frames| <= Started(size) && (r != Mapped && |frames| < PAGES ==> |frames| < Started(size))
      ensures r == AlreadyMapped ==>
        |frames| == PAGES || Target(old(Sp()).mem, top, PageNo(va / PAGE_SIZE, |frames|)).Some?
    {
      hide *;
      Sizes();
      OpenValid();
      RootFrame(Sp(), top);
      LayIs();
      OpenAlloc();
      SpIs();
      ghost var l, s, first := Lay(), Sp(), va / PAGE_SIZE;
      frames, lost, r := [], 0, Mapped;
      var offset: nat := 0;
      NoNewPages(l, s, top, first);
      CounterStarts(size);
      MarkedNothing(s.mem, top, first, flags);
      while offset < size
        invariant Valid() && Lay() == l && r == Mapped && fresh(pageAllocator.Repr - old(pageAllocator.Repr))
        invariant NewPages(l, s, Sp(), top, first, frames) && Marked(Sp().mem, top, first, |frames|, flags)
        invariant Counter(|frames|, size, offset)
        decreases PAGES + 1 - |frames|
      {
        ghost var s1 := Sp();
        CounterPage(va, |frames|, size, offset);
        CounterInside(|frames|, size, offset);
        RootGrown(l, s, s1, top, first, frames);
        OpenValid();
        OpenAlloc();
        LayIs();
        ghost var pa;
        var page := (va + offset) % U32;
        r, pa := AllocateOneVmPage(page, top, flags);
        LayIs();
        ContainedRoot(l, s1, Sp(), top);
        if r != Mapped {
          lost := pa;
          LeakedKeeps(l, s1, Sp(), pa);
          MarkedSame(s1.mem, Sp().mem, top, first, |frames|, flags);
          PageFailed(l, s, s1, Sp(), top, first, frames, pa);
          PartlyNewContained(l, s, Sp(), top, first, frames, pa);
          ContainedRoot(l, s, Sp(), top);
          return;
        }
        PageDone(l, s, s1, Sp(), top, first, frames, pa);
        MarkedMore(s1, Sp(), top, first, |frames|, flags);
        CounterSteps(|frames|, size, offset);
        frames := frames + [pa];
        offset := (offset + PAGE_SIZE) % U32;
      }
      CounterEnds(|frames|, size, offset);
      RootGrown(l, s, Sp(), top, first, frames);
      NewPagesContained(l, s, Sp(), top, first, frames);
    }

    /** Maps the started pages of [addr, addr + size) to themselves; no page table owns them. The program does not check that
      they are none that a page table could own: what is promised about the page tables holds as long as all pages that
      were mapped are such. */
    method UnsafeMapIdentity(addr: nat, size: nat, top: nat, flags: nat) returns (r: MapOutcome, ghost n: nat)
      requires Valid() && IsRoot(Sp(), top) && addr < U32 && size < U32 && Bit(flags, 1)
      requires size <= U32 - PAGE_SIZE || Uncounted(Lay(), addr / PAGE_SIZE, PAGES)
      modifies `own, scratchpad, pageAllocator.Repr
      ensures AllocSide() && scratchpad.Valid() && !scratchpad.locked && fresh(pageAllocator.Repr - old(pageAllocator.Repr))
      ensures IsFrame(top) && (r == Mapped ==> size <= U32 - PAGE_SIZE && n == Started(size))
      ensures n <= PAGES && n <= Started(size) && (r != Mapped && n < PAGES ==> n < Started(size))
      ensures Uncounted(Lay(), addr / PAGE_SIZE, n) ==>
        && Valid() && IsRoot(Sp(), top) && Contained(Lay(), old(Sp()), Sp(), top)
        && Marked(Sp().mem, top, addr / PAGE_SIZE, n, flags)
        && (r == Mapped ==> IdentityPages(Lay(), old(Sp()), Sp(), top, addr / PAGE_SIZE, n))
        && (r != Mapped ==> PartlyIdentity(Lay(), old(Sp()), Sp(), top, addr / PAGE_SIZE, n))
        && (r == Mapped || r == AlreadyMapped || OutOfFrames())
        && (r == AlreadyMapped ==> n == PAGES || Target(old(Sp()).mem, top, PageNo(addr / PAGE_SIZE, n)).Some?)
    {
      hide *;
      Sizes();
      OpenValid();
      RootFrame(Sp(), top);
      LayIs();
      OpenAlloc();
      SpIs();
      ghost var l, s, first, good := Lay(), Sp(), addr / PAGE_SIZE, true;
      n, r := 0, Mapped;
      var offset: nat := 0;
      NoIdentity(l, s, top, first);
      CounterStarts(size);
      MarkedNothing(s.mem, top, first, flags);
      NoneCounted(l, first);
      NoneCountedAtAll(l, first);
      while offset < size
        invariant AllocSide() && scratchpad.Valid() && !scratchpad.locked && fresh(pageAllocator.Repr - old(pageAllocator.Repr))
        invariant Lay() == l && r == Mapped && Counter(n, size, offset)
        invariant good <==> Uncounted(l, first, n)
        invariant good ==> Valid() && IdentityPages(l, s, Sp(), top, first, n) && Marked(Sp().mem, top, first, n, flags)
        decreases PAGES + 1 - n
      {
        ghost var s1 := Sp();
        CounterPage(addr, n, size, offset);
        if good {
          RootIdentity(l, s, s1, top, first, n);
          IdentityMapped(l, s, s1, top, first, n);
          OpenValid();
        }
        OpenAlloc();
        LayIs();
        ghost var taken;
        var page := (addr + offset) % U32;
        CounterInside(n, size, offset);
        CounterWraps(n, size, offset);
        IdentityMappable(l, s1, first, n, page);
        r, taken := MapAddrInner(page, page, top, flags, good);
        LayIs();
        SpIs();
        TargetIs(s1.mem, top, page);
        if r != Mapped {
          if good {
            IdentityFailed(l, s, s1, Sp(), top, first, n, taken);
            PartlyIdentityContained(l, s, Sp(), top, first, n);
            ContainedRoot(l, s, Sp(), top);
            SameMemoryFailed(s1, Sp(), taken);
            MarkedSame(s1.mem, Sp().mem, top, first, n, flags);
          }
          return;
        }
        good := good && !Counted(l, FrameIn(page));
        if good {
          MapsToIs(l, s1, Sp(), top, page, page, flags, taken);
          IdentityStep(l, s, s1, Sp(), top, first, n, page, flags, taken);
          MapsMarks(Sp().mem, top, page, page, flags);
          MapsExtends(l, s1, Sp(), top, page, page, flags, taken);
          MarkedMore(s1, Sp(), top, first, n, flags);
        }
        CounterSteps(n, size, offset);
        n := n + 1;
        offset := (offset + PAGE_SIZE) % U32;
      }
      CounterEnds(n, size, offset);
      if good {
        RootIdentity(l, s, Sp(), top, first, n);
        IdentityContained(l, s, Sp(), top, first, n);
      }
    }

    lemma SameMemoryFailed(s: Space, s': Space, taken: set<nat>)
      requires s' == s || s' == Take(s, taken)
      ensures s'.mem == s.mem
    {
    }

    // ---- freeing a page table ----

    /** Releases a table and everything below it, each frame once. */
    method FreePageTableInner(pa: nat, level: int, ghost s: Space) returns (ghost released: multiset<nat>)
      requires AllocSide() && scratchpad.Valid() && !scratchpad.locked && Inv(Lay(), s) && s.mem == scratchpad.Mem()
      requires TableAt(s, pa, level) && Used() <= s.used
      modifies scratchpad, pageAllocator.Repr
      ensures AllocSide() && scratchpad.Valid() && !scratchpad.locked && scratchpad.Mem() == s.mem
      ensures fresh(pageAllocator.Repr - old(pageAllocator.Repr))
      ensures Used() == old(Used()) - Subtree(s.own, pa, level) && Once(Lay(), released, Subtree(s.own, pa, level))
      ensures old(HolesOk()) ==> HolesOk()
      decreases level + 1
    {
      hide *;
      Sizes();
      SubtreeIs(s, pa, level);
      LayIs();
      OpenAlloc();
      ghost var l, used := Lay(), Used();
      released := multiset{};
      OnceNothing(l);
      if level < 0 {
        return;
      }
      NothingReached(s.own, pa);
      var pageData := scratchpad.ReadAtomic(pa, PAGE_SIZE);
      for i := 0 to PTES
        invariant AllocSide() && scratchpad.Valid() && !scratchpad.locked && scratchpad.Mem() == s.mem && Lay() == l
        invariant fresh(pageAllocator.Repr - old(pageAllocator.Repr)) && (old(HolesOk()) ==> HolesOk())
        invariant Used() == used - Reached(s.own, pa, i) && Once(l, released, Reached(s.own, pa, i))
      {
        EntryInIs(s.mem, pa, i);
        EntryOf(l, s, pa, level, i);
        OpenAlloc();
        LayIs();
        ghost var done, before := Reached(s.own, pa, i), released;
        var pte := EntryIn(pageData, i);
        MinusBoth(used, done, EntryFrames(l, s, pte, level));
        if PteValid(pte) {
          if !PteIsLeaf(pte) {
            PointerEntry(l, s, pte, level);
            ghost var more;
            more := FreePageTableInner(PtePa(pte), level - 1, s);
            released := released + more;
            OnceBoth(l, before, done, more, EntryFrames(l, s, pte, level));
          } else {
            LeafReleased(l, s, pte, Used());
            ReleaseOnePage(PtePa(pte));
            released := released + multiset{PtePa(pte)};
            OnceOne(l, PtePa(pte));
            OnceBoth(l, before, done, multiset{PtePa(pte)}, EntryFrames(l, s, pte, level));
          }
        } else {
          NothingEntry(l, s, pte, level, done);
        }
        LayIs();
      }
      OpenAlloc();
      LayIs();
      TablePageOwned(l, s, pa);
      NotBelowItself(l, s, pa, level);
      ghost var below, before := Reached(s.own, pa, PTES), released;
      ReleaseOnePage(pa);
      released := released + multiset{pa};
      OnceOne(l, pa);
      OnceBoth(l, before, below, multiset{pa}, {pa});
      MinusBoth(used, below, {pa});
      LayIs();
    }

    /** Frees the page table of top. Every frame that it owns is released, once, and nothing else changes. */
    method FreePageTable(top: nat) returns (ghost released: multiset<nat>)
      requires Valid() && IsRoot(Sp(), top)
      modifies `own, scratchpad, pageAllocator.Repr
      ensures Valid() && fresh(pageAllocator.Repr - old(pageAllocator.Repr))
      ensures Sp() == DropRoot(old(Sp()), top) && Once(Lay(), released, Family(old(own), top))
    {
      hide *;
      OpenValid();
      OpenAlloc();
      LayIs();
      SpIs();
      ghost var l, s := Lay(), Sp();
      RootTable(s, top);
      RootFrame(s, top);
      released := FreePageTableInner(top, 1, s);
      LayIs();
      DropRootInv(l, s, top);
      DropRootIs(s, top);
      own := DropRoot(s, top).own;
      SpIs();
      CloseValid(l, Sp());
    }

    lemma RootTable(s: Space, r: nat)
      requires IsRoot(s, r)
      ensures TableAt(s, r, 1) && Subtree(s.own, r, 1) == Family(s.own, r)
    {
    }

    lemma DropRootIs(s: Space, r: nat)
      ensures DropRoot(s, r) == Space(s.mem, s.used - Family(s.own, r), DropRoot(s, r).own)
    {
    }

    // ---- dumps ----

    /** Adds a table and the nodes below it to a dump. There is no level argument: nodes hold no pointers. */
    method DumpPageTableInner(pa: nat, dump: Store, ghost s: Space, ghost level: nat) returns (result: Store)
      requires scratchpad.Valid() && !scratchpad.locked && s.mem == scratchpad.Mem() && Inv(Lay(), s) && TableAt(s, pa, level)
      modifies scratchpad
      ensures scratchpad.Valid() && !scratchpad.locked && scratchpad.Mem() == s.mem
      ensures Dumped(s.mem, dump, result, Tables(s.own, pa))
      decreases level
    {
      hide *;
      Sizes();
      SubtreeIs(s, pa, level);
      LayIs();
      TablesIs(s.own, pa);
      ghost var l := Lay();
      var currentNode := scratchpad.ReadAtomic(pa, PAGE_SIZE);
      DumpedOne(s.mem, dump, pa);
      result := dump[pa := currentNode];
      DumpedNothing(s.mem, dump, result, {pa});
      for i := 0 to PTES
        invariant scratchpad.Valid() && !scratchpad.locked && scratchpad.Mem() == s.mem && Lay() == l
        invariant Dumped(s.mem, dump, result, {pa} + NodesBelow(s.own, pa, i))
      {
        EntryInIs(s.mem, pa, i);
        EntryTable(l, s, pa, level, i);
        LayIs();
        ghost var before := result;
        ghost var done := {pa} + NodesBelow(s.own, pa, i);
        var pte := EntryIn(currentNode, i);
        PointerTables(s, pte);
        MoreTables(pa, NodesBelow(s.own, pa, i), EntryTables(s, pte));
        if PteValid(pte) && !PteIsLeaf(pte) {
          result := DumpPageTableInner(PtePa(pte), result, s, level - 1);
          DumpedBoth(s.mem, dump, before, result, done, EntryTables(s, pte));
        } else {
          DumpedNothing(s.mem, dump, result, done);
        }
        LayIs();
      }
    }

    lemma MoreTables(pa: nat, A: set<nat>, B: set<nat>)
      ensures {pa} + (A + B) == {pa} + A + B
    {
    }

    /** The tables of root top, with their contents. */
    method DumpPageTable(top: nat) returns (dump: Store)
      requires Valid() && IsRoot(Sp(), top)
      modifies scratchpad
      ensures Valid() && Sp() == old(Sp()) && Dumped(Sp().mem, map[], dump, Tables(own, top))
    {
      hide *;
      OpenValid();
      OpenAlloc();
      LayIs();
      SpIs();
      RootTable(Sp(), top);
      ghost var l := Lay();
      dump := DumpPageTableInner(top, map[], Sp(), 1);
      SpIs();
      LayIs();
      CloseValid(l, Sp());
    }

    /** Appends the mapped pages of one table, which covers the pages from b on of root r. */
    method DumpAddressMappingInner(pa: nat, level: nat, vaPrefix: nat, mapping: Graph, ghost s: Space, ghost r: nat, ghost b: nat)
      returns (result: Graph, ghost g: Graph)
      requires scratchpad.Valid() && !scratchpad.locked && s.mem == scratchpad.Mem() && Inv(Lay(), s)
      requires Covers(s, r, pa, level, b) && vaPrefix == b * PAGE_SIZE
      modifies scratchpad
      ensures scratchpad.Valid() && !scratchpad.locked && scratchpad.Mem() == s.mem
      ensures IsFrame(r) && b + PTES * Span(level) <= PAGES
      ensures result == mapping + g && GraphOf(s.mem, r, b, b + PTES * Span(level), g)
      decreases level
    {
      hide *;
      Sizes();
      CoversFrame(s, r, pa, level, b);
      LayIs();
      ghost var l := Lay();
      var currentNode := scratchpad.ReadAtomic(pa, PAGE_SIZE);
      result, g := mapping, [];
      GraphStarts(s.mem, r, b);
      StretchNext(b, 0, level);
      for i := 0 to PTES
        invariant scratchpad.Valid() && !scratchpad.locked && scratchpad.Mem() == s.mem && Lay() == l
        invariant EntryPage(b, i, level) <= PAGES
        invariant result == mapping + g && GraphOf(s.mem, r, b, EntryPage(b, i, level), g)
      {
        EntryInIs(s.mem, pa, i);
        EntryGraph(l, s, r, pa, level, b, i);
        LayIs();
        StretchNext(b, i, level);
        ghost var before, h := g, [];
        ghost var p := EntryPage(b, i, level);
        var pte := EntryIn(currentNode, i);
        EntryGraphIs(s, r, level, p, pte);
        if PteValid(pte) {
          var va := Or(vaPrefix, Shl32(i, 12 + level * VPN_BITS));
          EntryVa(b, i, level);
          if PteIsLeaf(pte) {
            result := result + [(va, PtePa(pte))];
            h := [(va, PtePa(pte))];
          } else {
            result, h := DumpAddressMappingInner(PtePa(pte), level - 1, va, result, s, r, p);
          }
        }
        g := g + h;
        GraphBoth(s.mem, r, b, p, p + Span(level), before, h);
        LayIs();
      }
    }

    /** The mapped pages of root top in ascending order, each with its frame. */
    method DumpAddressMapping(top: nat) returns (mapping: Graph)
      requires Valid() && IsRoot(Sp(), top)
      modifies scratchpad
      ensures Valid() && Sp() == old(Sp()) && IsFrame(top) && GraphOf(Sp().mem, top, 0, PAGES, mapping)
    {
      hide *;
      OpenValid();
      OpenAlloc();
      LayIs();
      SpIs();
      RootCovers(Sp(), top);
      ghost var l, g := Lay(), [];
      mapping, g := DumpAddressMappingInner(top, 1, 0, [], Sp(), top, 0);
      assert mapping == g;
      SpIs();
      LayIs();
      CloseValid(l, Sp());
    }

    lemma Indices(va: nat)
      requires va < U32
      ensures VaVpn(va, 0) < PTES && VaVpn(va, 1) < PTES
    {
    }
  }
}
