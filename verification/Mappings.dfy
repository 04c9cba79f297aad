/** Page tables seen as maps from virtual pages to frames. */
module Mappings {
  import opened Base
  import opened Bits
  import opened Memory
  import opened Sv32
  import opened Translation
  import opened Holes
  import opened PageTables

  const PAGES: nat := 0x10_0000

  lemma Sizes()
    ensures PAGE_SIZE == 4096 && U32 == 0x1_0000_0000 && PAGES == 0x10_0000
  {
  }

  /** The leaf entry of virtual page p in the page table of r. */
  ghost function Entry(m: Mem, r: nat, p: nat): (e: Option<nat>)
    requires IsFrame(r) && p < PAGES
    ensures e.Some? ==> e.value < U32
  {
    LeafPte(m, r, p / 1024, p % 1024)
  }

  /** The frame that the page table of r maps virtual page p to. */
  ghost function Target(m: Mem, r: nat, p: nat): Option<nat>
    requires IsFrame(r) && p < PAGES
  {
    match Entry(m, r, p)
    case Some(pte) => Some(PtePa(pte))
    case None => None
  }

  lemma TargetIs(m: Mem, r: nat, va: nat)
    requires IsFrame(r) && va < U32
    ensures VaVpn(va, 1) < PTES && VaVpn(va, 0) < PTES && va / PAGE_SIZE < PAGES
    ensures Target(m, r, va / PAGE_SIZE) ==
      match LeafPte(m, r, VaVpn(va, 1), VaVpn(va, 0))
      case Some(pte) => Some(PtePa(pte))
      case None => None
  {
    hide VaVpn, PtePa, LeafPte;
    VpnPage(va);
  }

  /** A walk maps the page, and keeps the offset. */
  lemma WalkIsTarget(l: Layout, s: Space, r: nat, va: nat)
    requires Inv(l, s) && IsRoot(s, r) && va < U32
    ensures Walk(s.mem, r, va) ==
      match Target(s.mem, r, va / PAGE_SIZE)
      case Some(f) => Pa(f + va % PAGE_SIZE)
      case None => Fault(NotValid)
  {
    hide Inv, Walk, VaVpn, PtePa, PagePa, LeafPte, Entry;
    WalkIsLookup(l, s, r, va);
    TargetIs(s.mem, r, va);
  }

  /** How many pages p comes after page first, around the end of the address space. */
  function Place(first: nat, p: nat): (k: nat)
    ensures k < PAGES && (first < PAGES && p < PAGES ==> k == if first <= p then p - first else p + PAGES - first)
  {
    (p - first) % PAGES
  }

  /** The page n pages after page first, around the end of the address space. */
  function PageNo(first: nat, n: nat): (p: nat)
    ensures p < PAGES && (first < PAGES && n <= PAGES ==> p == if first + n < PAGES then first + n else first + n - PAGES)
  {
    (first + n) % PAGES
  }

  ghost predicate WroteAt(s: Space, s': Space, r: nat, first: nat, targets: seq<nat>, q: nat, p: nat)
    requires IsFrame(q) && p < PAGES
  {
    if q == r && Place(first, p) < |targets| then
      Target(s.mem, q, p) == None && Target(s'.mem, q, p) == Some(targets[Place(first, p)])
    else
      Entry(s'.mem, q, p) == Entry(s.mem, q, p)
  }

  /** s' maps the pages of root r from page first on, which s does not map, to the targets, in order;
    the entry of no other page of any root has changed. */
  ghost predicate Wrote(s: Space, s': Space, r: nat, first: nat, targets: seq<nat>) {
    && (forall q | IsRoot(s, q) :: IsRoot(s', q))
    && forall q, p | IsRoot(s, q) && 0 <= p < PAGES :: WroteAt(s, s', r, first, targets, q, p)
  }

  lemma WroteNothing(s: Space, F: set<nat>, r: nat, first: nat)
    ensures Wrote(s, Take(s, F), r, first, [])
  {
    hide IsFrame, LeafPte;
  }

  lemma NextPlace(first: nat, n: nat, p: nat)
    requires first < PAGES && n <= PAGES && p < PAGES
    ensures Place(PageNo(first, n), p) == if Place(first, p) < n then Place(first, p) + PAGES - n else Place(first, p) - n
  {
    hide Place;
    var f := if first + n < PAGES then first + n else first + n - PAGES;
    assert f == (first + n) % PAGES;
  }

  /** Consecutive stretches of pages make one stretch. */
  lemma WroteBoth(s: Space, s1: Space, s2: Space, r: nat, first: nat, ts: seq<nat>, us: seq<nat>)
    requires first < PAGES && |ts| + |us| <= PAGES
    requires Wrote(s, s1, r, first, ts) && Wrote(s1, s2, r, PageNo(first, |ts|), us)
    ensures Wrote(s, s2, r, first, ts + us)
  {
    hide IsRoot, Entry, PtePa, Place;
    forall q: nat, p: nat | IsRoot(s, q) && p < PAGES ensures IsFrame(q) && WroteAt(s, s2, r, first, ts + us, q, p) {
      RootIsFrame(s, q);
      NextPlace(first, |ts|, p);
      assert WroteAt(s, s1, r, first, ts, q, p);
      assert WroteAt(s1, s2, r, PageNo(first, |ts|), us, q, p);
    }
  }

  lemma RootIsFrame(s: Space, q: nat)
    requires IsRoot(s, q)
    ensures IsFrame(q)
  {
  }

  /** From s to s' only the page table of r grew: whatever is newly in use it owns, or lies in a hole. */
  ghost predicate Grown(l: Layout, s: Space, s': Space, r: nat) {
    && s.used <= s'.used
    && (forall f <- s.own :: f in s'.own && s'.own[f] == s.own[f])
    && (forall f <- s'.own :: f in s.own || (f !in s.used && Beneath(s'.own, f, r, PTES)))
    && (forall f <- s'.used :: f in s.used || f in s'.own || InHole(l.holes, f))
  }

  lemma GrownBoth(l: Layout, s: Space, s1: Space, s2: Space, r: nat)
    requires Grown(l, s, s1, r) && Grown(l, s1, s2, r)
    ensures Grown(l, s, s2, r)
  {
    hide InHole;
  }

  lemma LeafGrown(l: Layout, s: Space, r: nat, i: nat, n: nat, j: nat, pte: nat)
    requires Under(s, r, i, n) && i < PTES && j < PTES && pte < U32
    requires Counted(l, PtePa(pte)) ==> PtePa(pte) in s.used && PtePa(pte) !in s.own
    ensures var t := NewLeaf(l, s, n, j, pte);
      && t.used == s.used && (forall f <- s.own :: f in t.own && t.own[f] == s.own[f])
      && (Counted(l, PtePa(pte)) ==> PtePa(pte) in t.own)
      && forall f <- t.own :: f in s.own || (f == PtePa(pte) && Counted(l, f) && Beneath(t.own, f, r, PTES))
  {
    hide InHole, SetPte, PtePa, Counted;
  }

  /** The frame of an address. */
  function FrameIn(pa: nat): (f: nat)
    ensures f == pa - pa % PAGE_SIZE
  {
    pa - pa % PAGE_SIZE
  }

  /** The page of va in root r is mapped to pa, from s to s'. */
  ghost predicate MapsTo(l: Layout, s: Space, s': Space, r: nat, va: nat, pa: nat, flags: nat, taken: set<nat>) {
    && Inv(l, s) && IsRoot(s, r) && va < U32 && pa < U32 && Bit(flags, 1) && Mappable(l, s, va, pa) && TakenOk(l, s, taken)
    && Maps(l, s, s', r, va, LeafEntry(pa, flags), taken)
  }

  lemma MapsToIs(l: Layout, s: Space, s': Space, r: nat, va: nat, pa: nat, flags: nat, taken: set<nat>)
    requires Inv(l, s) && IsRoot(s, r) && va < U32 && pa < U32 && Bit(flags, 1) && Mappable(l, s, va, pa) && TakenOk(l, s, taken)
    requires Maps(l, s, s', r, va, LeafEntry(pa, flags), taken)
    ensures MapsTo(l, s, s', r, va, pa, flags, taken)
  {
    hide Inv, Bit, Mappable, TakenOk, Maps, LeafEntry;
  }

  /** A mapping changes the map of one root at one page. */
  lemma MapsWrote(l: Layout, s: Space, s': Space, r: nat, va: nat, pa: nat, flags: nat, taken: set<nat>)
    requires MapsTo(l, s, s', r, va, pa, flags, taken)
    ensures Inv(l, s') && Wrote(s, s', r, va / PAGE_SIZE, [FrameIn(pa)])
  {
    hide Inv, LeafPte, LeafEntry, Maps, VaVpn, Bit, TakenOk, Mappable, PtePa, PteValid, PteReadable, IsRoot, Entry, Place;
    MapsOnePage(l, s, s', r, va, pa, flags, taken, r, 0, 0);
    MapsKeepsRoots(l, s, s', r, va, pa, flags, taken);
    var first, targets: seq<nat> := va / PAGE_SIZE, [FrameIn(pa)];
    forall q: nat, p: nat | IsRoot(s, q) && p < PAGES ensures IsFrame(q) && WroteAt(s, s', r, first, targets, q, p) {
      RootIsFrame(s, q);
      MapsWroteAt(l, s, s', r, va, pa, flags, taken, q, p);
    }
  }

  lemma MapsKeepsRoots(l: Layout, s: Space, s': Space, r: nat, va: nat, pa: nat, flags: nat, taken: set<nat>)
    requires MapsTo(l, s, s', r, va, pa, flags, taken)
    ensures forall q | IsRoot(s, q) :: IsRoot(s', q)
  {
    hide Inv, LeafPte, LeafEntry, Maps, VaVpn, Bit, TakenOk, Mappable, PtePa, PteValid, PteReadable;
    forall q | IsRoot(s, q) ensures IsRoot(s', q) {
      MapsOnePage(l, s, s', r, va, pa, flags, taken, q, 0, 0);
    }
  }

  lemma MapsWroteAt(l: Layout, s: Space, s': Space, r: nat, va: nat, pa: nat, flags: nat, taken: set<nat>, q: nat, p: nat)
    requires MapsTo(l, s, s', r, va, pa, flags, taken) && IsRoot(s, q) && IsFrame(q) && p < PAGES
    ensures WroteAt(s, s', r, va / PAGE_SIZE, [FrameIn(pa)], q, p)
  {
    hide Inv, LeafPte, LeafEntry, Maps, VaVpn, Bit, TakenOk, Mappable, PtePa, PteValid, PteReadable, IsRoot, IsFrame;
    MapsOnePage(l, s, s', r, va, pa, flags, taken, q, p / 1024, p % 1024);
    VpnPage(va);
    LeafEntryIs(pa, flags);
    assert p == p / 1024 * 1024 + p % 1024;
    VpnBounds(va);
    MapsUnmapped(l, s, s', r, va, LeafEntry(pa, flags), taken, pa);
  }

  lemma VpnBounds(va: nat)
    requires va < U32
    ensures VaVpn(va, 0) < 1024 && VaVpn(va, 1) < 1024
  {
  }

  /** A mapping to pa, for which the frames t0 were taken before, grows one page table only. */
  lemma MapsGrown(l: Layout, s: Space, t0: set<nat>, s': Space, r: nat, va: nat, pa: nat, flags: nat, taken: set<nat>)
    requires Inv(l, s) && TakenOk(l, s, t0) && IsRoot(s, r) && va < U32 && pa < U32 && Bit(flags, 1)
    requires Mappable(l, Take(s, t0), va, pa) && TakenOk(l, Take(s, t0), taken) && (Counted(l, pa - pa % PAGE_SIZE) ==> pa - pa % PAGE_SIZE in t0)
    requires forall f <- t0 :: InHole(l.holes, f) || (f == pa - pa % PAGE_SIZE && Counted(l, f))
    requires IsRoot(Take(s, t0), r) && Maps(l, Take(s, t0), s', r, va, LeafEntry(pa, flags), taken)
    requires forall g <- taken :: g in s'.own || InHole(l.holes, g)
    ensures Grown(l, s, s', r) && s'.used == s.used + t0 + taken
  {
    hide Inv, LeafPte, LeafEntry, VaVpn, Bit, PtePa, PteValid, PteReadable, Counted, InHole, Descends, Under, NewLeaf,
      IsFrame, Grown, Beneath, Maps, Mappable, TakenOk, SmallPpn, IsRoot;
    var t, i, j, pte := Take(s, t0), VaVpn(va, 1), VaVpn(va, 0), LeafEntry(pa, flags);
    VpnBounds(va);
    LeafEntryIs(pa, flags);
    var s1, n := MapsSteps(l, t, s', r, va, pte, taken);
    OwnUsed(l, s);
    TakenApart(l, s, t0, taken);
    DescendsGrows(l, t, s1, r, i, taken);
    FrameNotOwned(l, s, t0, s1, r, i, va, pa, taken);
    LeafGrown(l, s1, r, i, n, j, pte);
    GrownFrom(l, s, t0, s1, s', r, i, PtePa(pte), taken);
  }

  lemma TakenApart(l: Layout, s: Space, t0: set<nat>, taken: set<nat>)
    requires TakenOk(l, s, t0) && TakenOk(l, Take(s, t0), taken)
    ensures t0 !! s.used && taken !! s.used + t0
  {
    hide IsFrame;
  }

  lemma FrameNotOwned(l: Layout, s: Space, t0: set<nat>, s1: Space, r: nat, i: nat, va: nat, pa: nat, taken: set<nat>)
    requires pa < U32 && Mappable(l, Take(s, t0), va, pa) && (Counted(l, pa - pa % PAGE_SIZE) ==> pa - pa % PAGE_SIZE in t0)
    requires s1.used == s.used + t0 + taken && forall g <- s1.own :: g in s.own || (g !in s.used + t0 && s1.own[g] == Node(r, i))
    ensures Counted(l, pa - pa % PAGE_SIZE) ==> pa - pa % PAGE_SIZE in s1.used && pa - pa % PAGE_SIZE !in s1.own
  {
    hide Counted, InHole, IsFrame;
  }

  lemma GrownFrom(l: Layout, s: Space, t0: set<nat>, s1: Space, s': Space, r: nat, i: nat, f: nat, taken: set<nat>)
    requires s.own.Keys <= s.used && t0 !! s.used && taken !! s.used + t0 && i < PTES && (Counted(l, f) ==> f in t0)
    requires forall g <- t0 :: InHole(l.holes, g) || (g == f && Counted(l, f))
    requires forall g <- taken :: g in s'.own || InHole(l.holes, g)
    requires s1.used == s.used + t0 + taken && (forall g <- s.own :: g in s1.own && s1.own[g] == s.own[g])
    requires forall g <- s1.own :: g in s.own || (g !in s.used + t0 && s1.own[g] == Node(r, i))
    requires s'.used == s1.used && (forall g <- s1.own :: g in s'.own && s'.own[g] == s1.own[g])
    requires (Counted(l, f) ==> f in s'.own) && forall g <- s'.own :: g in s1.own || (g == f && Counted(l, g) && Beneath(s'.own, g, r, PTES))
    ensures Grown(l, s, s', r)
  {
    hide Counted, InHole;
  }

  /** The two steps of a mapping. */
  lemma MapsSteps(l: Layout, s: Space, s': Space, r: nat, va: nat, pte: nat, taken: set<nat>) returns (s1: Space, n: nat)
    requires IsRoot(s, r) && va < U32 && pte < U32 && Maps(l, s, s', r, va, pte, taken)
    ensures VaVpn(va, 1) < PTES && VaVpn(va, 0) < PTES && Descends(l, s, s1, r, VaVpn(va, 1), taken)
    ensures Under(s1, r, VaVpn(va, 1), n) && IsFrame(n)
    ensures !PteValid(Pte(s1.mem, n, VaVpn(va, 0))) && s' == NewLeaf(l, s1, n, VaVpn(va, 0), pte)
  {
    hide VaVpn, PteValid, Pte, NewLeaf, Descends;
    VpnBounds(va);
    s1, n :| Descends(l, s, s1, r, VaVpn(va, 1), taken) && Under(s1, r, VaVpn(va, 1), n) &&
      !PteValid(Pte(s1.mem, n, VaVpn(va, 0))) && s' == NewLeaf(l, s1, n, VaVpn(va, 0), pte);
  }

  lemma OwnUsed(l: Layout, s: Space)
    requires Inv(l, s)
    ensures s.own.Keys <= s.used
  {
  }

  lemma DescendsGrows(l: Layout, s: Space, s1: Space, r: nat, i: nat, taken: set<nat>)
    requires IsRoot(s, r) && i < PTES && Descends(l, s, s1, r, i, taken) && TakenOk(l, s, taken) && s.own.Keys <= s.used
    ensures s1.used == s.used + taken && (forall f <- s.own :: f in s1.own && s1.own[f] == s.own[f])
    ensures forall f <- s1.own :: f in s.own || (f !in s.used && s1.own[f] == Node(r, i))
  {
    hide InHole, IsFrame, Pte, PteValid, SetPte, ZeroPage, MakePte;
  }

  /** Page p of root r got the new frame f. */
  ghost predicate NewPage(l: Layout, s: Space, s': Space, r: nat, p: nat, f: nat) {
    Counted(l, f) && f !in s.used && f in s'.used && Wrote(s, s', r, p, [f]) && Grown(l, s, s', r)
  }

  /** The page tables stay as they are; beyond frames in holes, only f may have come into use. */
  ghost predicate Leaked(l: Layout, s: Space, s': Space, f: nat) {
    s'.mem == s.mem && s'.own == s.own && s.used <= s'.used && forall g <- s'.used :: g in s.used || g == f || InHole(l.holes, g)
  }

  /** The frames t0 were taken for the frame f. */
  ghost predicate TakenFor(l: Layout, s: Space, t0: set<nat>, f: nat) {
    TakenOk(l, s, t0) && f in t0 && !InHole(l.holes, f) && forall g <- t0 :: g == f || InHole(l.holes, g)
  }

  lemma TakenForFacts(l: Layout, s: Space, t0: set<nat>, f: nat, r: nat)
    requires Inv(l, s) && TakenFor(l, s, t0, f) && IsRoot(s, r)
    ensures Inv(l, Take(s, t0)) && IsRoot(Take(s, t0), r) && Take(s, t0).mem == s.mem
    ensures f < U32 && f % PAGE_SIZE == 0 && Counted(l, f) && f !in s.used && forall va :: Mappable(l, Take(s, t0), va, f)
    ensures forall g <- t0 :: InHole(l.holes, g) || (g == f && Counted(l, f))
  {
    hide Inv, InHole;
    TakeInv(l, s, t0);
    OwnUsed(l, s);
  }

  lemma NewPageIs(l: Layout, s: Space, t0: set<nat>, s': Space, r: nat, va: nat, f: nat, flags: nat, taken: set<nat>)
    requires Inv(l, s) && TakenFor(l, s, t0, f) && IsRoot(s, r) && MapsTo(l, Take(s, t0), s', r, va, f, flags, taken)
    requires forall g <- taken :: g in s'.own || InHole(l.holes, g)
    ensures NewPage(l, s, s', r, va / PAGE_SIZE, f)
  {
    hide Inv, InHole, Maps, Counted, Grown, Wrote, IsRoot, TakenFor, TakenOk, LeafEntry, Mappable, Bit;
    TakenForFacts(l, s, t0, f, r);
    TakenForOk(l, s, t0, f);
    MapsWrote(l, Take(s, t0), s', r, va, f, flags, taken);
    WroteSame(s, t0, s', r, va / PAGE_SIZE, [f]);
    MapsGrown(l, s, t0, s', r, va, f, flags, taken);
  }

  lemma TakenForOk(l: Layout, s: Space, t0: set<nat>, f: nat)
    requires TakenFor(l, s, t0, f)
    ensures TakenOk(l, s, t0) && f in t0
  {
  }

  lemma WroteSame(s: Space, F: set<nat>, s': Space, r: nat, first: nat, targets: seq<nat>)
    requires Wrote(Take(s, F), s', r, first, targets)
    ensures Wrote(s, s', r, first, targets)
  {
    hide IsFrame, Entry, PtePa, Place;
    forall q: nat, p: nat | IsRoot(s, q) && p < PAGES ensures WroteAt(s, s', r, first, targets, q, p) {
      assert IsRoot(Take(s, F), q);
      assert WroteAt(Take(s, F), s', r, first, targets, q, p);
    }
    forall q | IsRoot(s, q) ensures IsRoot(s', q) {
      assert IsRoot(Take(s, F), q);
    }
  }

  lemma LeakedIs(l: Layout, s: Space, t0: set<nat>, s': Space, f: nat, taken: set<nat>)
    requires TakenFor(l, s, t0, f) && s.own.Keys <= s.used
    requires s' == Take(s, t0) ||
      (s' == Take(Take(s, t0), taken) && TakenOk(l, Take(s, t0), taken) && forall g <- taken :: g in s'.own || InHole(l.holes, g))
    ensures Leaked(l, s, s', f)
  {
    hide InHole, IsFrame;
  }

  lemma NoFrameLeft(l: Layout, s: Space, t0: set<nat>, f: nat)
    requires Inv(l, s) && TakenOk(l, s, t0) && forall g <- t0 :: InHole(l.holes, g)
    ensures Inv(l, Take(s, t0)) && Leaked(l, s, Take(s, t0), f)
  {
    hide InHole, Inv;
    TakeInv(l, s, t0);
  }

  // ---- stretches of pages ----

  /** The pages of root r from page first on got the new frames, in order. */
  ghost predicate NewPages(l: Layout, s: Space, s': Space, r: nat, first: nat, frames: seq<nat>) {
    && |frames| <= PAGES && Wrote(s, s', r, first, frames) && Grown(l, s, s', r)
    && (forall k | 0 <= k < |frames| :: Counted(l, frames[k]) && frames[k] !in s.used && frames[k] in s'.used)
    && (forall k, m | 0 <= k < m < |frames| :: frames[k] != frames[m])
  }

  /** Some pages got new frames, then one failed. */
  ghost predicate PartlyNew(l: Layout, s: Space, s': Space, r: nat, first: nat, frames: seq<nat>, f: nat) {
    exists mid: Space :: NewPages(l, s, mid, r, first, frames) && Leaked(l, mid, s', f)
  }

  lemma NoNewPages(l: Layout, s: Space, r: nat, first: nat)
    ensures NewPages(l, s, s, r, first, [])
  {
    hide IsFrame, LeafPte, InHole, Counted;
    assert Take(s, {}) == s;
    WroteNothing(s, {}, r, first);
  }

  lemma OneMoreNew(l: Layout, s: Space, s1: Space, s2: Space, r: nat, first: nat, frames: seq<nat>, f: nat)
    requires first < PAGES && |frames| < PAGES && NewPages(l, s, s1, r, first, frames)
    requires NewPage(l, s1, s2, r, PageNo(first, |frames|), f)
    ensures NewPages(l, s, s2, r, first, frames + [f])
  {
    hide Wrote, InHole, Counted, Beneath;
    WroteBoth(s, s1, s2, r, first, frames, [f]);
    GrownBoth(l, s, s1, s2, r);
  }

  /** After 2^20 pages nothing is left unmapped. */
  lemma AllPagesMapped(s: Space, s': Space, r: nat, first: nat, targets: seq<nat>)
    requires IsRoot(s, r) && IsFrame(r) && first < PAGES && Wrote(s, s', r, first, targets) && |targets| == PAGES
    ensures forall p | 0 <= p < PAGES :: Target(s'.mem, r, p).Some?
  {
    hide IsFrame, Entry, PtePa;
    forall p | 0 <= p < PAGES ensures Target(s'.mem, r, p).Some? {
      assert WroteAt(s, s', r, first, targets, r, p);
    }
  }

  /** The page at an offset of n pages, around the end of the address space. */
  lemma PageAt(va: nat, n: nat)
    requires va < U32
    ensures (va + n * PAGE_SIZE) % U32 / PAGE_SIZE == PageNo(va / PAGE_SIZE, n)
    ensures (va + n * PAGE_SIZE % U32) % U32 == (va + n * PAGE_SIZE) % U32
  {
    var q, o := va / PAGE_SIZE, va % PAGE_SIZE;
    var k, m := (q + n) / PAGES, (q + n) % PAGES;
    assert q + n == k * PAGES + m;
    DivModUnique(va + n * PAGE_SIZE, U32, k, m * PAGE_SIZE + o);
    WrapAdd(va, n * PAGE_SIZE);
  }

  lemma WrapAdd(a: nat, b: nat)
    ensures (a + b % U32) % U32 == (a + b) % U32
  {
    var q := (a + b % U32) / U32;
    DivModUnique(a + b, U32, q + b / U32, (a + b % U32) % U32);
  }

  lemma ModApart(a: nat, b: nat)
    requires a < b < a + U32
    ensures a % U32 != b % U32
  {
    var q, x := a / U32, a % U32 + (b - a);
    if x < U32 {
      DivModUnique(b, U32, q, x);
    } else {
      DivModUnique(b, U32, q + 1, x - U32);
    }
  }

  /** The pages themselves, as targets of an identity mapping. */
  function Identity(first: nat, n: nat): (targets: seq<nat>)
    ensures |targets| == n && forall k | 0 <= k < n :: targets[k] == PageNo(first, k) * PAGE_SIZE
  {
    seq(n, k requires 0 <= k < n => PageNo(first, k) * PAGE_SIZE)
  }

  /** The started pages of size bytes. */
  function Started(size: nat): (n: nat)
    ensures n * PAGE_SIZE < size + PAGE_SIZE && size <= n * PAGE_SIZE
  {
    (size + PAGE_SIZE - 1) / PAGE_SIZE
  }

  lemma StartedSplit(a: nat, n: nat)
    ensures Started(a + n) == a / PAGE_SIZE + Started(a % PAGE_SIZE + n)
  {
  }

  /** Shifting n bytes by part of a page takes one page more exactly when they do not fit behind the offset. */
  lemma StraddleOne(o: nat, n: nat)
    requires o < PAGE_SIZE
    ensures Started(n) <= Started(o + n) <= Started(n) + 1 && (o == 0 ==> Started(o + n) == Started(n))
    ensures 0 < n ==> (Started(o + n) == Started(n) <==> o + (n - 1) % PAGE_SIZE < PAGE_SIZE)
  {
  }

  /** None of n pages from page first on is mapped. */
  ghost predicate Unmapped(m: Mem, r: nat, first: nat, n: nat)
    requires IsFrame(r)
  {
    forall p | 0 <= p < PAGES && Place(first, p) < n :: Target(m, r, p) == None
  }

  /** The page after a stretch is mapped as before. */
  lemma NextPage(s: Space, s1: Space, r: nat, first: nat, targets: seq<nat>)
    requires IsRoot(s, r) && IsFrame(r) && first < PAGES && |targets| < PAGES && Wrote(s, s1, r, first, targets)
    ensures Target(s1.mem, r, PageNo(first, |targets|)) == Target(s.mem, r, PageNo(first, |targets|))
  {
    hide Entry, PtePa, IsFrame, Place;
    var p := PageNo(first, |targets|);
    assert p == if first + |targets| < PAGES then first + |targets| else first + |targets| - PAGES;
    assert WroteAt(s, s1, r, first, targets, r, p);
  }

  /** The pages of a stretch that was written were not mapped before. */
  lemma WroteUnmapped(s: Space, s': Space, r: nat, first: nat, targets: seq<nat>)
    requires IsRoot(s, r) && IsFrame(r) && Wrote(s, s', r, first, targets)
    ensures Unmapped(s.mem, r, first, |targets|)
  {
    hide Entry, PtePa, IsRoot, IsFrame, Place;
    forall p | 0 <= p < PAGES && Place(first, p) < |targets| ensures Target(s.mem, r, p) == None {
      assert WroteAt(s, s', r, first, targets, r, p);
    }
  }

  lemma RootGrown(l: Layout, s: Space, s1: Space, r: nat, first: nat, frames: seq<nat>)
    requires NewPages(l, s, s1, r, first, frames) && IsRoot(s, r)
    ensures IsRoot(s1, r) && |frames| <= PAGES
  {
    hide IsRoot, Entry, PtePa, Place, Grown, Counted;
  }

  /** One more page was mapped. */
  lemma PageDone(l: Layout, s: Space, s1: Space, s2: Space, r: nat, first: nat, frames: seq<nat>, f: nat)
    requires NewPages(l, s, s1, r, first, frames) && IsRoot(s, r) && IsFrame(r) && first < PAGES
    requires var p := PageNo(first, |frames|); Target(s1.mem, r, p) == None && NewPage(l, s1, s2, r, p, f)
    ensures |frames| < PAGES && NewPages(l, s, s2, r, first, frames + [f])
  {
    hide Wrote, Grown, Counted, Entry, PtePa, IsFrame, NewPage, IsRoot;
    if |frames| == PAGES {
      AllPagesMapped(s, s1, r, first, frames);
      assert false;
    }
    OneMoreNew(l, s, s1, s2, r, first, frames, f);
  }

  lemma NewPagesWrote(l: Layout, s: Space, s1: Space, r: nat, first: nat, frames: seq<nat>)
    requires NewPages(l, s, s1, r, first, frames)
    ensures Wrote(s, s1, r, first, frames) && |frames| <= PAGES
  {
    hide Wrote, Grown, Counted;
  }

  lemma NoOffset(p: nat)
    requires p < PAGES
    ensures PageNo(p, 0) == p
  {
  }

  /** A page could not be mapped. */
  lemma PageFailed(l: Layout, s: Space, s1: Space, s2: Space, r: nat, first: nat, frames: seq<nat>, f: nat)
    requires NewPages(l, s, s1, r, first, frames) && IsRoot(s, r) && IsFrame(r) && first < PAGES && Leaked(l, s1, s2, f)
    ensures |frames| <= PAGES && PartlyNew(l, s, s2, r, first, frames, f)
    ensures var p := PageNo(first, |frames|);
      Target(s1.mem, r, p).Some? ==> |frames| == PAGES || Target(s.mem, r, p).Some?
  {
    hide Wrote, Grown, Counted, Entry, PtePa, IsFrame, IsRoot, Leaked;
    if |frames| < PAGES {
      NextPage(s, s1, r, first, frames);
    }
  }

  /** The page at a 32-bit loop counter that counts pages. */
  lemma CounterPage(va: nat, n: nat, size: nat, offset: nat)
    requires va < U32 && Counter(n, size, offset)
    ensures n <= PAGES && offset < U32 && va / PAGE_SIZE < PAGES && (va + offset) % U32 < U32
    ensures (va + offset) % U32 / PAGE_SIZE == PageNo(va / PAGE_SIZE, n)
  {
    PageAt(va, n);
  }

  /** After n pages the counter stands at n pages, unless it started over. */
  ghost predicate Counter(n: nat, size: nat, offset: nat) {
    && n <= PAGES && offset == (if n < PAGES then n * PAGE_SIZE else 0)
    && if n < PAGES then n * PAGE_SIZE < size + PAGE_SIZE else U32 - PAGE_SIZE < size
  }

  lemma CounterStarts(size: nat)
    ensures Counter(0, size, 0)
  {
  }

  lemma CounterSteps(n: nat, size: nat, offset: nat)
    requires Counter(n, size, offset) && n < PAGES && offset < size
    ensures Counter(n + 1, size, (offset + PAGE_SIZE) % U32)
  {
  }

  lemma CounterInside(n: nat, size: nat, offset: nat)
    requires Counter(n, size, offset) && offset < size
    ensures n % PAGES < Started(size) && n % PAGES < PAGES && n <= PAGES && n <= Started(size) && (n < PAGES ==> n < Started(size))
    ensures forall first | 0 <= first < PAGES :: PageNo(first, n % PAGES) == PageNo(first, n)
  {
  }

  /** The counter starts over only for sizes beyond 2^32 - 4096. */
  lemma CounterWraps(n: nat, size: nat, offset: nat)
    requires Counter(n, size, offset) && offset < size
    ensures size <= U32 - PAGE_SIZE ==> n < PAGES
  {
  }

  lemma SmallStart(size: nat)
    requires size <= U32 - PAGE_SIZE
    ensures Started(size) < PAGES
  {
  }

  lemma CounterEnds(n: nat, size: nat, offset: nat)
    requires Counter(n, size, offset) && size <= offset
    ensures size <= U32 - PAGE_SIZE && n == Started(size)
  {
  }

  lemma UnmappedRest(s: Space, s1: Space, r: nat, first: nat, targets: seq<nat>, n: nat)
    requires IsRoot(s, r) && IsFrame(r) && first < PAGES && |targets| <= n <= PAGES
    requires Wrote(s, s1, r, first, targets) && Unmapped(s.mem, r, first, n)
    ensures Unmapped(s1.mem, r, PageNo(first, |targets|), n - |targets|)
  {
    hide Entry, PtePa, IsFrame, IsRoot, Place, PageNo;
    forall p | 0 <= p < PAGES && Place(PageNo(first, |targets|), p) < n - |targets| ensures Target(s1.mem, r, p) == None {
      NextPlace(first, |targets|, p);
      assert WroteAt(s, s1, r, first, targets, r, p);
    }
  }

  /** A page of an unmapped stretch is unmapped. */
  lemma UnmappedAt(m: Mem, r: nat, first: nat, n: nat, k: nat)
    requires IsFrame(r) && first < PAGES && Unmapped(m, r, first, n) && k < n && k < PAGES
    ensures Target(m, r, PageNo(first, k)) == None
  {
    hide Entry, PtePa, IsFrame;
    assert Place(first, PageNo(first, k)) == k;
  }

  /** When a stretch of n pages was unmapped and its first pages were written, its later pages are unmapped still. */
  lemma NotMappedYet(s: Space, s1: Space, top: nat, first: nat, frames: seq<nat>, n: nat, k: nat)
    requires IsRoot(s, top) && IsFrame(top) && first < PAGES && Wrote(s, s1, top, first, frames) && |frames| + k < n <= PAGES
    ensures Unmapped(s.mem, top, first, n) ==> Target(s1.mem, top, PageNo(PageNo(first, |frames|), k)) == None
  {
    hide Entry, PtePa, IsRoot, IsFrame, Wrote, PageNo;
    if Unmapped(s.mem, top, first, n) {
      UnmappedRest(s, s1, top, first, frames, n);
      UnmappedAt(s1.mem, top, PageNo(first, |frames|), n - |frames|, k);
    }
  }

  /** Two stretches of new pages, one behind the other. */
  lemma NewPagesBoth(l: Layout, s: Space, s1: Space, s2: Space, r: nat, first: nat, fs: seq<nat>, gs: seq<nat>)
    requires first < PAGES && |fs| + |gs| <= PAGES && NewPages(l, s, s1, r, first, fs)
    requires NewPages(l, s1, s2, r, PageNo(first, |fs|), gs)
    ensures NewPages(l, s, s2, r, first, fs + gs)
  {
    hide Wrote, InHole, Counted, Beneath, PageNo;
    WroteBoth(s, s1, s2, r, first, fs, gs);
    GrownBoth(l, s, s1, s2, r);
    forall k | 0 <= k < |fs + gs| ensures Counted(l, (fs + gs)[k]) && (fs + gs)[k] !in s.used && (fs + gs)[k] in s2.used {
      assert (fs + gs)[k] == if k < |fs| then fs[k] else gs[k - |fs|];
    }
    forall k, m | 0 <= k < m < |fs + gs| ensures (fs + gs)[k] != (fs + gs)[m] {
      assert (fs + gs)[k] == if k < |fs| then fs[k] else gs[k - |fs|];
      assert (fs + gs)[m] == if m < |fs| then fs[m] else gs[m - |fs|];
    }
  }

  lemma OneNewPage(l: Layout, s: Space, s': Space, r: nat, p: nat, f: nat)
    requires NewPage(l, s, s', r, p, f)
    ensures NewPages(l, s, s', r, p, [f])
  {
    hide Wrote, Counted, Grown;
  }

  // ---- identity mappings ----

  /** n pages of root r from page first on are mapped to themselves. */
  ghost predicate IdentityPages(l: Layout, s: Space, s': Space, r: nat, first: nat, n: nat) {
    n <= PAGES && Wrote(s, s', r, first, Identity(first, n)) && Grown(l, s, s', r)
  }

  ghost predicate PartlyIdentity(l: Layout, s: Space, s': Space, r: nat, first: nat, n: nat) {
    exists mid: Space :: IdentityPages(l, s, mid, r, first, n) && Leaked(l, mid, s', 0)
  }

  /** No page of the stretch is one that a page table would own. */
  ghost predicate Uncounted(l: Layout, first: nat, n: nat) {
    forall k | 0 <= k < n && k < PAGES :: !Counted(l, PageNo(first, k) * PAGE_SIZE)
  }

  lemma NoIdentity(l: Layout, s: Space, r: nat, first: nat)
    ensures IdentityPages(l, s, s, r, first, 0)
  {
    hide IsFrame, LeafPte, InHole, Counted;
    assert Take(s, {}) == s && Identity(first, 0) == [];
    WroteNothing(s, {}, r, first);
  }

  lemma NoneCounted(l: Layout, first: nat)
    ensures Uncounted(l, first, 0)
  {
  }

  lemma NoneCountedAtAll(l: Layout, first: nat)
    ensures Uncounted(l, first, PAGES) ==> forall n :: Uncounted(l, first, n)
  {
    hide Counted, PageNo;
  }

  lemma FewerUncounted(l: Layout, first: nat, n: nat, k: nat)
    requires Uncounted(l, first, n) && k <= n
    ensures Uncounted(l, first, k)
  {
    hide Counted, PageNo;
  }

  /** Whether page n of the stretch is uncounted, too. */
  lemma IdentityMappable(l: Layout, s: Space, first: nat, n: nat, va: nat)
    requires n <= PAGES && va < U32 && va / PAGE_SIZE == PageNo(first, n) && (n == PAGES ==> Uncounted(l, first, n))
    ensures FrameIn(va) == PageNo(first, n) * PAGE_SIZE
    ensures Uncounted(l, first, n + 1) <==> Uncounted(l, first, n) && !Counted(l, FrameIn(va))
    ensures !Counted(l, FrameIn(va)) ==> Mappable(l, s, va, va)
  {
    hide Counted;
    assert va - va % PAGE_SIZE == va / PAGE_SIZE * PAGE_SIZE;
    assert n == PAGES ==> PageNo(first, n) == PageNo(first, 0);
  }

  lemma IdentityStep(l: Layout, s: Space, s1: Space, s2: Space, r: nat, first: nat, n: nat, va: nat, flags: nat, taken: set<nat>)
    requires first < PAGES && n < PAGES && IdentityPages(l, s, s1, r, first, n) && MapsTo(l, s1, s2, r, va, va, flags, taken)
    requires va < U32 && va / PAGE_SIZE == PageNo(first, n) && FrameIn(va) == PageNo(first, n) * PAGE_SIZE
    requires !Counted(l, FrameIn(va)) && forall g <- taken :: g in s2.own || InHole(l.holes, g)
    ensures IdentityPages(l, s, s2, r, first, n + 1)
  {
    hide Inv, InHole, Maps, Counted, Grown, Wrote, IsRoot, LeafEntry, Mappable, Bit, TakenOk, PageNo;
    MapsWrote(l, s1, s2, r, va, va, flags, taken);
    WroteBoth(s, s1, s2, r, first, Identity(first, n), [FrameIn(va)]);
    assert Identity(first, n) + [FrameIn(va)] == Identity(first, n + 1);
    assert Take(s1, {}) == s1;
    NoneTaken(l, s1);
    MapsGrown(l, s1, {}, s2, r, va, va, flags, taken);
    GrownBoth(l, s, s1, s2, r);
  }

  lemma NoneTaken(l: Layout, s: Space)
    ensures TakenOk(l, s, {})
  {
  }

  lemma IdentityFailed(l: Layout, s: Space, s1: Space, s2: Space, r: nat, first: nat, n: nat, taken: set<nat>)
    requires IdentityPages(l, s, s1, r, first, n) && Inv(l, s1)
    requires s2 == s1 || (s2 == Take(s1, taken) && TakenOk(l, s1, taken) && forall g <- taken :: g in s2.own || InHole(l.holes, g))
    ensures PartlyIdentity(l, s, s2, r, first, n)
  {
    hide Inv, InHole, Wrote, Grown, IsFrame;
    OwnUsed(l, s1);
    assert Leaked(l, s1, s2, 0);
  }

  lemma RootIdentity(l: Layout, s: Space, s1: Space, r: nat, first: nat, n: nat)
    requires IdentityPages(l, s, s1, r, first, n) && IsRoot(s, r)
    ensures IsRoot(s1, r) && n <= PAGES
  {
    hide IsRoot, Entry, PtePa, Place, Grown, Counted;
  }

  /** A page that was mapped stays mapped, and a page of the stretch is mapped. */
  lemma IdentityMapped(l: Layout, s: Space, s1: Space, r: nat, first: nat, n: nat)
    requires IdentityPages(l, s, s1, r, first, n) && IsRoot(s, r) && IsFrame(r) && first < PAGES
    ensures var p := PageNo(first, n); Target(s1.mem, r, p).Some? <==> n == PAGES || Target(s.mem, r, p).Some?
  {
    hide Entry, PtePa, Grown, IsFrame, IsRoot;
    if n == PAGES {
      AllPagesMapped(s, s1, r, first, Identity(first, n));
    } else {
      NextPage(s, s1, r, first, Identity(first, n));
    }
  }

  // ---- permissions ----

  /** The entry of page p has the requested flags, and V, A and D. */
  ghost predicate MarkedAt(m: Mem, r: nat, p: nat, flags: nat)
    requires IsFrame(r) && p < PAGES
  {
    Entry(m, r, p).Some? && HasFlags(Entry(m, r, p).value, flags)
  }

  /** The n pages of root r from page first on are mapped with these flags. */
  ghost predicate Marked(m: Mem, r: nat, first: nat, n: nat, flags: nat)
    requires IsFrame(r)
  {
    forall k | 0 <= k < n :: MarkedAt(m, r, PageNo(first, k), flags)
  }

  lemma MarkedNothing(m: Mem, r: nat, first: nat, flags: nat)
    requires IsFrame(r)
    ensures Marked(m, r, first, 0, flags)
  {
  }

  /** The flags of a mapped page stay while any page table grows. */
  lemma MarkedKept(s: Space, s': Space, q: nat, r: nat, first: nat, n: nat, flags: nat)
    requires IsRoot(s, r) && IsFrame(r) && Extends(s, s', q) && Marked(s.mem, r, first, n, flags)
    ensures Marked(s'.mem, r, first, n, flags)
  {
    hide Entry, IsRoot, IsFrame, HasFlags, PageNo;
    forall k | 0 <= k < n ensures PageNo(first, k) < PAGES && MarkedAt(s'.mem, r, PageNo(first, k), flags) {
      PageNoBound(first, k);
      assert MarkedAt(s.mem, r, PageNo(first, k), flags);
      assert ExtendsAt(s, s', q, r, PageNo(first, k));
    }
  }

  lemma PageNoBound(first: nat, k: nat)
    ensures PageNo(first, k) < PAGES
  {
  }

  lemma MarkedSame(m: Mem, m': Mem, r: nat, first: nat, n: nat, flags: nat)
    requires IsFrame(r) && m' == m && Marked(m, r, first, n, flags)
    ensures Marked(m', r, first, n, flags)
  {
    hide Entry, HasFlags;
  }

  /** One more page with the same flags. */
  lemma MarkedMore(s: Space, s': Space, r: nat, first: nat, n: nat, flags: nat)
    requires IsRoot(s, r) && IsFrame(r) && Extends(s, s', r) && Marked(s.mem, r, first, n, flags)
    requires MarkedAt(s'.mem, r, PageNo(first, n), flags)
    ensures Marked(s'.mem, r, first, n + 1, flags)
  {
    hide Entry, IsRoot, IsFrame, HasFlags, Extends, MarkedAt;
    MarkedKept(s, s', r, r, first, n, flags);
  }

  /** What a mapping wrote: the page number of pa, the requested flags, and V, A and D. */
  ghost predicate MapsWith(m: Mem, r: nat, va: nat, pa: nat, flags: nat)
    requires IsFrame(r) && va < U32
  {
    VpnBounds(va);
    match LeafPte(m, r, VaVpn(va, 1), VaVpn(va, 0))
    case Some(pte) => PtePa(pte) == pa - pa % PAGE_SIZE && pte / 1024 == pa / PAGE_SIZE && HasFlags(pte, flags)
    case None => false
  }

  lemma MapsWrites(l: Layout, s: Space, s': Space, r: nat, va: nat, pa: nat, flags: nat, taken: set<nat>)
    requires MapsTo(l, s, s', r, va, pa, flags, taken)
    ensures IsFrame(r) && MapsWith(s'.mem, r, va, pa, flags)
  {
    hide Inv, LeafPte, LeafEntry, Maps, VaVpn, Bit, TakenOk, Mappable, PtePa, HasFlags, IsFrame;
    VpnBounds(va);
    RootIsFrame(s, r);
    MapsOnePage(l, s, s', r, va, pa, flags, taken, r, VaVpn(va, 1), VaVpn(va, 0));
    EntryFlags(pa, flags);
  }

  lemma AnywayWrites(l: Layout, s: Space, s': Space, r: nat, va: nat, pa: nat, flags: nat, taken: set<nat>)
    requires Inv(l, s) && IsRoot(s, r) && va < U32 && pa < U32 && Bit(flags, 1) && TakenOk(l, s, taken)
    requires MapsAnyway(l, s, s', r, va, LeafEntry(pa, flags), taken)
    ensures IsFrame(r) && MapsWith(s'.mem, r, va, pa, flags)
  {
    hide Inv, LeafPte, LeafEntry, MapsAnyway, VaVpn, Bit, TakenOk, PtePa, HasFlags, IsFrame;
    VpnBounds(va);
    RootIsFrame(s, r);
    AnywayOnePage(l, s, s', r, va, pa, flags, taken, r, VaVpn(va, 1), VaVpn(va, 0));
    EntryFlags(pa, flags);
  }

  lemma MapsMarks(m: Mem, r: nat, va: nat, pa: nat, flags: nat)
    requires IsFrame(r) && va < U32 && MapsWith(m, r, va, pa, flags)
    ensures va / PAGE_SIZE < PAGES && MarkedAt(m, r, va / PAGE_SIZE, flags)
  {
    hide VaVpn, LeafPte, PtePa, HasFlags, IsFrame;
    VpnBounds(va);
    VpnPage(va);
  }

  /** n pages of root r from page first on are user pages that can be read; those that can be written and executed. */
  ghost predicate Permitted(m: Mem, r: nat, first: nat, n: nat, w: bool, x: bool)
    requires IsFrame(r)
  {
    forall k | 0 <= k < n :: PermittedAt(m, r, PageNo(first, k), w, x)
  }

  ghost predicate PermittedAt(m: Mem, r: nat, p: nat, w: bool, x: bool)
    requires IsFrame(r) && p < PAGES
  {
    Entry(m, r, p).Some? && Permits(Entry(m, r, p).value, w, x)
  }

  /** Flags that ask for such a page. */
  ghost predicate Requests(flags: nat, w: bool, x: bool) {
    && Bit(flags, 1) && (Bit(flags, 2) <==> w) && (Bit(flags, 3) <==> x) && Bit(flags, 4)
    && !Bit(flags, 5) && !Bit(flags, 8) && !Bit(flags, 9)
  }

  lemma FlagsPermit(pte: nat, flags: nat, w: bool, x: bool)
    requires HasFlags(pte, flags) && Requests(flags, w, x)
    ensures Permits(pte, w, x)
  {
    hide Bit;
  }

  lemma MarkedPermits(m: Mem, r: nat, first: nat, n: nat, flags: nat, w: bool, x: bool)
    requires IsFrame(r) && Marked(m, r, first, n, flags) && Requests(flags, w, x)
    ensures Permitted(m, r, first, n, w, x)
  {
    hide Entry, HasFlags, Requests, Permits, PageNo, IsFrame;
    forall k | 0 <= k < n ensures PageNo(first, k) < PAGES && PermittedAt(m, r, PageNo(first, k), w, x) {
      PageNoBound(first, k);
      assert MarkedAt(m, r, PageNo(first, k), flags);
      FlagsPermit(Entry(m, r, PageNo(first, k)).value, flags, w, x);
    }
  }

  lemma PageTwice(first: nat, n: nat, k: nat)
    ensures PageNo(PageNo(first, n), k) == PageNo(first, n + k)
  {
    var q, a := (first + n) / PAGES, (first + n) % PAGES;
    DivModUnique(first + n + k, PAGES, q + (a + k) / PAGES, (a + k) % PAGES);
  }

  /** Two stretches, one behind the other. */
  lemma PermittedBoth(m: Mem, r: nat, first: nat, n: nat, more: nat, w: bool, x: bool)
    requires IsFrame(r) && Permitted(m, r, first, n, w, x) && Permitted(m, r, PageNo(first, n), more, w, x)
    ensures Permitted(m, r, first, n + more, w, x)
  {
    hide Entry, IsFrame, Permits, PageNo;
    forall k | 0 <= k < n + more ensures PageNo(first, k) < PAGES && PermittedAt(m, r, PageNo(first, k), w, x) {
      PageNoBound(first, k);
      if n <= k {
        PageTwice(first, n, k - n);
        PageNoBound(PageNo(first, n), k - n);
        assert PermittedAt(m, r, PageNo(PageNo(first, n), k - n), w, x);
      }
    }
  }

  /** The permissions of a mapped page stay while any page table grows. */
  lemma PermittedKept(s: Space, s': Space, q: nat, r: nat, first: nat, n: nat, w: bool, x: bool)
    requires IsRoot(s, r) && IsFrame(r) && Extends(s, s', q) && Permitted(s.mem, r, first, n, w, x)
    ensures Permitted(s'.mem, r, first, n, w, x)
  {
    hide Entry, IsRoot, IsFrame, Permits, PageNo;
    forall k | 0 <= k < n ensures PageNo(first, k) < PAGES && PermittedAt(s'.mem, r, PageNo(first, k), w, x) {
      PageNoBound(first, k);
      assert PermittedAt(s.mem, r, PageNo(first, k), w, x);
      assert ExtendsAt(s, s', q, r, PageNo(first, k));
    }
  }

  // ---- stretches in one state ----

  /** n pages of root r from page first on are mapped to themselves. */
  ghost predicate SelfMapped(m: Mem, r: nat, first: nat, n: nat)
    requires IsFrame(r)
  {
    forall k | 0 <= k < n :: Target(m, r, PageNo(first, k)) == Some(PageNo(first, k) * PAGE_SIZE)
  }

  /** n pages of root r from page first on are mapped to frames that the page table owns. */
  ghost predicate OwnStretch(l: Layout, m: Mem, r: nat, first: nat, n: nat)
    requires IsFrame(r)
  {
    forall k | 0 <= k < n :: OwnAt(l, m, r, PageNo(first, k))
  }

  ghost predicate OwnAt(l: Layout, m: Mem, r: nat, p: nat)
    requires IsFrame(r) && p < PAGES
  {
    Target(m, r, p).Some? && Counted(l, Target(m, r, p).value)
  }

  lemma IdentitySelf(l: Layout, s: Space, s': Space, r: nat, first: nat, n: nat)
    requires IsRoot(s, r) && IsFrame(r) && first < PAGES && IdentityPages(l, s, s', r, first, n)
    ensures SelfMapped(s'.mem, r, first, n)
  {
    hide Entry, PtePa, IsRoot, IsFrame, Grown;
    forall k | 0 <= k < n ensures Target(s'.mem, r, PageNo(first, k)) == Some(PageNo(first, k) * PAGE_SIZE) {
      assert WroteAt(s, s', r, first, Identity(first, n), r, PageNo(first, k));
    }
  }

  lemma NewPagesOwn(l: Layout, s: Space, s': Space, r: nat, first: nat, frames: seq<nat>)
    requires IsRoot(s, r) && IsFrame(r) && first < PAGES && NewPages(l, s, s', r, first, frames)
    ensures OwnStretch(l, s'.mem, r, first, |frames|)
  {
    hide Entry, PtePa, IsRoot, IsFrame, Grown, Counted;
    forall k | 0 <= k < |frames| ensures PageNo(first, k) < PAGES && OwnAt(l, s'.mem, r, PageNo(first, k)) {
      assert WroteAt(s, s', r, first, frames, r, PageNo(first, k));
    }
  }

  lemma SelfKept(s: Space, s': Space, r: nat, first: nat, n: nat)
    requires IsRoot(s, r) && IsFrame(r) && Extends(s, s', r) && SelfMapped(s.mem, r, first, n)
    ensures SelfMapped(s'.mem, r, first, n)
  {
    hide Entry, PtePa, IsRoot, IsFrame, PageNo;
    forall k | 0 <= k < n ensures PageNo(first, k) < PAGES && Target(s'.mem, r, PageNo(first, k)) == Some(PageNo(first, k) * PAGE_SIZE) {
      PageNoBound(first, k);
      assert ExtendsAt(s, s', r, r, PageNo(first, k));
      assert Target(s.mem, r, PageNo(first, k)) == Some(PageNo(first, k) * PAGE_SIZE);
    }
  }

  lemma OwnStretchKept(l: Layout, s: Space, s': Space, r: nat, first: nat, n: nat)
    requires IsRoot(s, r) && IsFrame(r) && Extends(s, s', r) && OwnStretch(l, s.mem, r, first, n)
    ensures OwnStretch(l, s'.mem, r, first, n)
  {
    hide Entry, PtePa, IsRoot, IsFrame, PageNo, Counted;
    forall k | 0 <= k < n ensures PageNo(first, k) < PAGES && OwnAt(l, s'.mem, r, PageNo(first, k)) {
      PageNoBound(first, k);
      assert OwnAt(l, s.mem, r, PageNo(first, k));
      assert ExtendsAt(s, s', r, r, PageNo(first, k));
    }
  }

  /** Two memories hold the same entries for a root. */
  ghost predicate SameEntries(m: Mem, e: Mem, r: nat)
    requires IsFrame(r)
  {
    forall p | 0 <= p < PAGES :: Entry(e, r, p) == Entry(m, r, p)
  }

  lemma StretchSame(l: Layout, m: Mem, e: Mem, r: nat, first: nat, n: nat, w: bool, x: bool)
    requires IsFrame(r) && SameEntries(m, e, r)
    ensures SelfMapped(m, r, first, n) ==> SelfMapped(e, r, first, n)
    ensures OwnStretch(l, m, r, first, n) ==> OwnStretch(l, e, r, first, n)
    ensures Permitted(m, r, first, n, w, x) ==> Permitted(e, r, first, n, w, x)
  {
    hide Entry, PtePa, IsFrame, PageNo, Counted, Permits;
    forall k | 0 <= k < n
      ensures PageNo(first, k) < PAGES && Entry(e, r, PageNo(first, k)) == Entry(m, r, PageNo(first, k))
      ensures PermittedAt(m, r, PageNo(first, k), w, x) ==> PermittedAt(e, r, PageNo(first, k), w, x)
      ensures OwnAt(l, m, r, PageNo(first, k)) ==> OwnAt(l, e, r, PageNo(first, k))
    {
      PageNoBound(first, k);
    }
  }

  // ---- freeing ----

  /** Creating a page table, growing it in any way and freeing it gives back every frame outside the holes, and every role. */
  lemma CreateMapFree(l: Layout, s: Space, taken: set<nat>, r: nat, s': Space)
    requires Inv(l, s) && TakenOk(l, s, taken) && r in taken && Fresh(l, Take(s, taken), r)
    requires forall f <- taken :: f == r || InHole(l.holes, f)
    requires IsFrame(r) && Grown(l, NewRoot(Take(s, taken), r), s', r)
    ensures DropRoot(s', r).own == s.own
    ensures s.used <= DropRoot(s', r).used && forall f <- DropRoot(s', r).used - s.used :: InHole(l.holes, f)
  {
    hide Inv, Fresh, TakenOk, NewRoot, InHole;
    GrownButNone(l, NewRoot(Take(s, taken), r), s', r, r);
    CreateFailFree(l, s, taken, r, s', r);
  }

  /** When the growth failed at some point, freeing leaves at most the one frame in use that was lost there. */
  lemma CreateFailFree(l: Layout, s: Space, taken: set<nat>, r: nat, s': Space, x: nat)
    requires Inv(l, s) && TakenOk(l, s, taken) && r in taken && Fresh(l, Take(s, taken), r)
    requires forall f <- taken :: f == r || InHole(l.holes, f)
    requires IsFrame(r) && GrownBut(l, NewRoot(Take(s, taken), r), s', r, x)
    ensures DropRoot(s', r).own == s.own
    ensures s.used <= DropRoot(s', r).used && forall f <- DropRoot(s', r).used - s.used :: (f == x && f != r) || InHole(l.holes, f)
  {
    hide IsFrame, InHole, Pte, PteValid, PtePa, MakePte, PteReadable, PteIsLeaf, ZeroPage;
    var s0, t := NewRoot(Take(s, taken), r), DropRoot(s', r);
    forall f | f in s.own ensures f !in Family(s'.own, r) {
      assert RoleOk(s, f);
      if s.own[f].Leaf? {
        assert RoleOk(s, s.own[f].node);
      }
    }
    forall f | f in s'.own && f !in s.own ensures f in Family(s'.own, r) {
      assert f in s0.own ==> f == r;
    }
    assert t.own.Keys == s.own.Keys;
    forall f | f in s.used ensures f !in Family(s'.own, r) {
      assert f in s'.own ==> f in s0.own || f !in s0.used;
    }
  }

  /** Freeing a page table keeps the map of every other root. */
  lemma FreeKeepsOthers(l: Layout, s: Space, r: nat, q: nat)
    requires Inv(l, s) && IsRoot(s, r) && IsRoot(s, q) && q != r
    ensures IsRoot(DropRoot(s, r), q) && forall p | 0 <= p < PAGES :: Target(DropRoot(s, r).mem, q, p) == Target(s.mem, q, p)
  {
    hide IsFrame, Entry, PtePa, Inv;
  }

  // ---- stretches that stay apart ----

  /** Of root r only the n pages from page first on may be mapped differently. */
  ghost predicate OnlyThere(m: Mem, m': Mem, r: nat, first: nat, n: nat)
    requires IsFrame(r)
  {
    forall p | 0 <= p < PAGES && n <= Place(first, p) :: Target(m', r, p) == Target(m, r, p)
  }

  ghost predicate StretchesApart(a: nat, m: nat, b: nat, n: nat) {
    forall p | 0 <= p < PAGES && Place(a, p) < m :: n <= Place(b, p)
  }

  lemma UnmappedKept(m: Mem, m': Mem, r: nat, first: nat, n: nat, b: nat, k: nat)
    requires IsFrame(r) && OnlyThere(m, m', r, first, n) && StretchesApart(first, n, b, k) && Unmapped(m, r, b, k)
    ensures Unmapped(m', r, b, k)
  {
    hide Entry, PtePa, IsFrame, Place;
    forall p | 0 <= p < PAGES && Place(b, p) < k ensures Target(m', r, p) == None {
      assert n <= Place(first, p);
    }
  }

  /** How one part of a kernel was mapped: only its pages changed, or one of them was mapped before. */
  ghost predicate PartDone(m: Mem, m': Mem, r: nat, first: nat, n: nat, done: bool, already: bool)
    requires IsFrame(r)
  {
    (done ==> OnlyThere(m, m', r, first, n)) && (already ==> !Unmapped(m, r, first, n))
  }

  lemma PartIsDone(s: Space, s': Space, r: nat, first: nat, targets: seq<nat>)
    requires IsRoot(s, r) && IsFrame(r) && Wrote(s, s', r, first, targets)
    ensures PartDone(s.mem, s'.mem, r, first, |targets|, true, false)
  {
    hide Entry, PtePa, IsRoot, IsFrame, Place;
    forall p | 0 <= p < PAGES && |targets| <= Place(first, p) ensures Target(s'.mem, r, p) == Target(s.mem, r, p) {
      assert WroteAt(s, s', r, first, targets, r, p);
    }
  }

  lemma PartFailed(m: Mem, m': Mem, r: nat, first: nat, n: nat, already: bool)
    requires IsFrame(r) && (already ==> !Unmapped(m, r, first, n))
    ensures PartDone(m, m', r, first, n, false, already)
  {
  }

  lemma PartNext(m: Mem, m': Mem, r: nat, first: nat, n: nat, b: nat, k: nat)
    requires IsFrame(r) && PartDone(m, m', r, first, n, true, false) && StretchesApart(first, n, b, k)
    ensures Unmapped(m, r, b, k) ==> Unmapped(m', r, b, k)
  {
    hide Entry, PtePa, IsFrame, Place, OnlyThere, StretchesApart, Unmapped;
    if Unmapped(m, r, b, k) {
      UnmappedKept(m, m', r, first, n, b, k);
    }
  }

  // ---- growth without loss ----

  ghost predicate ExtendsAt(s: Space, s': Space, r: nat, q: nat, p: nat)
    requires IsFrame(q) && p < PAGES
  {
    q != r || Entry(s.mem, q, p).Some? ==> Entry(s'.mem, q, p) == Entry(s.mem, q, p)
  }

  /** From s to s' no entry of a mapped page of any root has changed, and only root r gained any. */
  ghost predicate Extends(s: Space, s': Space, r: nat) {
    && (forall q | IsRoot(s, q) :: IsRoot(s', q))
    && forall q, p | IsRoot(s, q) && 0 <= p < PAGES :: ExtendsAt(s, s', r, q, p)
  }

  lemma WroteExtends(s: Space, s': Space, r: nat, first: nat, targets: seq<nat>)
    requires Wrote(s, s', r, first, targets)
    ensures Extends(s, s', r)
  {
    hide Entry, PtePa, IsRoot, Place;
    forall q: nat, p: nat | IsRoot(s, q) && p < PAGES ensures IsFrame(q) && ExtendsAt(s, s', r, q, p) {
      RootIsFrame(s, q);
      assert WroteAt(s, s', r, first, targets, q, p);
    }
  }

  lemma MapsExtends(l: Layout, s: Space, s': Space, r: nat, va: nat, pa: nat, flags: nat, taken: set<nat>)
    requires MapsTo(l, s, s', r, va, pa, flags, taken)
    ensures Extends(s, s', r)
  {
    hide MapsTo, Wrote, Extends;
    MapsWrote(l, s, s', r, va, pa, flags, taken);
    WroteExtends(s, s', r, va / PAGE_SIZE, [FrameIn(pa)]);
  }

  lemma LeakedKeeps(l: Layout, s: Space, s': Space, f: nat)
    requires Leaked(l, s, s', f)
    ensures s'.mem == s.mem
  {
    hide InHole;
  }

  lemma ExtendsBoth(s: Space, s1: Space, s2: Space, r: nat)
    requires Extends(s, s1, r) && Extends(s1, s2, r)
    ensures Extends(s, s2, r)
  {
    hide Entry, PtePa, IsRoot;
    forall q: nat, p: nat | IsRoot(s, q) && p < PAGES ensures IsFrame(q) && ExtendsAt(s, s2, r, q, p) {
      RootIsFrame(s, q);
      assert ExtendsAt(s, s1, r, q, p) && ExtendsAt(s1, s2, r, q, p);
    }
  }

  lemma ExtendsSelf(s: Space, r: nat)
    ensures Extends(s, s, r)
  {
    hide Entry, PtePa;
  }

  /** As Grown, but one frame x may have come into use that nothing owns. */
  ghost predicate GrownBut(l: Layout, s: Space, s': Space, r: nat, x: nat) {
    && s.used <= s'.used
    && (forall f <- s.own :: f in s'.own && s'.own[f] == s.own[f])
    && (forall f <- s'.own :: f in s.own || (f !in s.used && Beneath(s'.own, f, r, PTES)))
    && (forall f <- s'.used :: f in s.used || f in s'.own || f == x || InHole(l.holes, f))
  }

  lemma GrownButNone(l: Layout, s: Space, s': Space, r: nat, x: nat)
    requires Grown(l, s, s', r)
    ensures GrownBut(l, s, s', r, x)
  {
    hide InHole, Beneath;
  }

  /** Successful or not: no entry of a mapped page has changed, only root r gained any, and at most one frame was lost. */
  ghost predicate Contained(l: Layout, s: Space, s': Space, r: nat) {
    Extends(s, s', r) && exists x: nat :: GrownBut(l, s, s', r, x)
  }

  lemma GrownContained(l: Layout, s: Space, s': Space, r: nat)
    requires Extends(s, s', r) && Grown(l, s, s', r)
    ensures Contained(l, s, s', r)
  {
    hide Extends, Grown, GrownBut;
    GrownButNone(l, s, s', r, 0);
  }

  lemma LeakedContained(l: Layout, s: Space, s': Space, r: nat, f: nat)
    requires Leaked(l, s, s', f)
    ensures Contained(l, s, s', r)
  {
    hide Entry, PtePa, InHole, Beneath;
    assert GrownBut(l, s, s', r, f);
  }

  lemma GrownThenBut(l: Layout, s: Space, s1: Space, s2: Space, r: nat, x: nat)
    requires Grown(l, s, s1, r) && GrownBut(l, s1, s2, r, x)
    ensures GrownBut(l, s, s2, r, x)
  {
    hide InHole;
  }

  lemma ContainedAfter(l: Layout, s: Space, s1: Space, s2: Space, r: nat)
    requires Extends(s, s1, r) && Grown(l, s, s1, r) && Contained(l, s1, s2, r)
    ensures Contained(l, s, s2, r)
  {
    hide Extends, Grown, GrownBut;
    ExtendsBoth(s, s1, s2, r);
    var x: nat :| GrownBut(l, s1, s2, r, x);
    GrownThenBut(l, s, s1, s2, r, x);
  }

  lemma ContainedRoot(l: Layout, s: Space, s': Space, r: nat)
    requires Contained(l, s, s', r) && IsRoot(s, r)
    ensures IsRoot(s', r) && Extends(s, s', r)
  {
    hide ExtendsAt, GrownBut, IsRoot;
  }

  lemma NewPagesContained(l: Layout, s: Space, s': Space, r: nat, first: nat, frames: seq<nat>)
    requires NewPages(l, s, s', r, first, frames)
    ensures Contained(l, s, s', r)
  {
    hide NewPages, Contained, Extends, Grown;
    NewPagesExtend(l, s, s', r, first, frames);
    GrownContained(l, s, s', r);
  }

  lemma PartlyNewContained(l: Layout, s: Space, s': Space, r: nat, first: nat, frames: seq<nat>, f: nat)
    requires PartlyNew(l, s, s', r, first, frames, f)
    ensures Contained(l, s, s', r)
  {
    hide NewPages, Leaked, Contained, Extends, Grown;
    var mid: Space :| NewPages(l, s, mid, r, first, frames) && Leaked(l, mid, s', f);
    NewPagesExtend(l, s, mid, r, first, frames);
    LeakedContained(l, mid, s', r, f);
    ContainedAfter(l, s, mid, s', r);
  }

  lemma PartlyIdentityContained(l: Layout, s: Space, s': Space, r: nat, first: nat, n: nat)
    requires PartlyIdentity(l, s, s', r, first, n)
    ensures Contained(l, s, s', r)
  {
    hide IdentityPages, Leaked, Contained, Extends, Grown;
    var mid: Space :| IdentityPages(l, s, mid, r, first, n) && Leaked(l, mid, s', 0);
    IdentityExtends(l, s, mid, r, first, n);
    LeakedContained(l, mid, s', r, 0);
    ContainedAfter(l, s, mid, s', r);
  }

  lemma IdentityContained(l: Layout, s: Space, s': Space, r: nat, first: nat, n: nat)
    requires IdentityPages(l, s, s', r, first, n)
    ensures Contained(l, s, s', r)
  {
    hide IdentityPages, Contained, Extends, Grown;
    IdentityExtends(l, s, s', r, first, n);
    GrownContained(l, s, s', r);
  }

  lemma NewPageContained(l: Layout, s: Space, s': Space, r: nat, p: nat, f: nat)
    requires NewPage(l, s, s', r, p, f)
    ensures Contained(l, s, s', r)
  {
    hide NewPage, NewPages, Contained;
    OneNewPage(l, s, s', r, p, f);
    NewPagesContained(l, s, s', r, p, [f]);
  }

  lemma GrownSelf(l: Layout, s: Space, r: nat)
    ensures Grown(l, s, s, r)
  {
  }

  lemma NewPagesExtend(l: Layout, s: Space, s': Space, r: nat, first: nat, frames: seq<nat>)
    requires NewPages(l, s, s', r, first, frames)
    ensures Extends(s, s', r) && Grown(l, s, s', r)
  {
    hide Wrote, Extends, Grown, Counted;
    WroteExtends(s, s', r, first, frames);
  }

  lemma IdentityExtends(l: Layout, s: Space, s': Space, r: nat, first: nat, n: nat)
    requires IdentityPages(l, s, s', r, first, n)
    ensures Extends(s, s', r) && Grown(l, s, s', r)
  {
    hide Wrote, Extends, Grown;
    WroteExtends(s, s', r, first, Identity(first, n));
  }

  /** A new page table maps nothing, and the others keep their maps. */
  lemma NewRootEmpty(l: Layout, s: Space, taken: set<nat>, f: nat)
    requires Inv(l, s) && TakenOk(l, s, taken) && f in taken && Fresh(l, Take(s, taken), f) && IsFrame(f)
    ensures IsRoot(NewRoot(Take(s, taken), f), f) && forall p | 0 <= p < PAGES :: Target(NewRoot(Take(s, taken), f).mem, f, p) == None
    ensures Extends(s, NewRoot(Take(s, taken), f), f)
  {
    hide Inv, LeafPte, PtePa, InHole, IsFrame;
    TakeInv(l, s, taken);
    OwnUsed(l, s);
    var t := NewRoot(Take(s, taken), f);
    forall q: nat, p: nat | (q == f || IsRoot(s, q)) && p < PAGES
      ensures IsFrame(q) && Entry(t.mem, q, p) == if q == f then None else Entry(s.mem, q, p)
    {
      PageSplit(p);
      NewRootKeeps(l, Take(s, taken), f, q, p / 1024, p % 1024);
    }
  }

  // ---- the life of a page table ----

  /** From s to s' an empty page table was created at r. */
  ghost predicate NewTable(l: Layout, s: Space, s': Space, r: nat) {
    IsFrame(r) && exists taken: set<nat> :: NewTableFrom(l, s, s', r, taken)
  }

  ghost predicate NewTableFrom(l: Layout, s: Space, s': Space, r: nat, taken: set<nat>)
    requires IsFrame(r)
  {
    && TakenOk(l, s, taken) && r in taken && Fresh(l, Take(s, taken), r) && (forall f <- taken :: f == r || InHole(l.holes, f))
    && s' == NewRoot(Take(s, taken), r)
  }

  /** All frames in use, but one at most, are those from before, or lie in holes. */
  ghost predicate OneLost(l: Layout, s: Space, s': Space) {
    s.used <= s'.used && exists x: nat :: LostOnly(l, s, s', x)
  }

  ghost predicate LostOnly(l: Layout, s: Space, s': Space, x: nat) {
    forall f <- s'.used :: f in s.used || f == x || InHole(l.holes, f)
  }

  /** A page table is created, grows with or without failures, and is freed: the roles are as before, at most one frame was
    lost, and no other page table has changed. */
  lemma Lifetime(l: Layout, s: Space, s0: Space, s': Space, r: nat)
    requires Inv(l, s) && NewTable(l, s, s0, r) && Contained(l, s0, s', r)
    ensures DropRoot(s', r).own == s.own && OneLost(l, s, DropRoot(s', r))
    ensures forall q | IsRoot(s, q) :: IsRoot(DropRoot(s', r), q)
    ensures forall q, p | IsRoot(s, q) && 0 <= p < PAGES :: Target(DropRoot(s', r).mem, q, p) == Target(s.mem, q, p)
  {
    hide Inv, Fresh, TakenOk, NewRoot, InHole, Entry, PtePa, GrownBut, DropRoot, IsFrame;
    var taken: set<nat> :| NewTableFrom(l, s, s0, r, taken);
    var x: nat :| GrownBut(l, s0, s', r, x);
    CreateFailFree(l, s, taken, r, s', x);
    assert LostOnly(l, s, DropRoot(s', r), x);
    NewRootEmpty(l, s, taken, r);
    DropKeepsMemory(s', r);
    forall q: nat, p: nat | IsRoot(s, q) && p < PAGES ensures IsFrame(q) && Target(s'.mem, q, p) == Target(s.mem, q, p) {
      RootIsFrame(s, q);
      NotRootYet(l, s, taken, r, q);
      assert ExtendsAt(s, s0, r, q, p) && ExtendsAt(s0, s', r, q, p);
    }
  }

  lemma DropKeepsMemory(s: Space, r: nat)
    ensures DropRoot(s, r).mem == s.mem
  {
  }

  lemma NotRootYet(l: Layout, s: Space, taken: set<nat>, r: nat, q: nat)
    requires Inv(l, s) && TakenOk(l, s, taken) && r in taken && IsRoot(s, q)
    ensures q != r
  {
    hide Inv, IsFrame;
    OwnUsed(l, s);
  }

  // ---- isolation ----

  /** The program maps a page to a frame that another page has as target without a check; then both share it. */
  lemma MapsShares(l: Layout, s: Space, s': Space, r: nat, va: nat, pa: nat, flags: nat, taken: set<nat>, q: nat, p: nat)
    requires Inv(l, s) && IsRoot(s, r) && IsRoot(s, q) && IsFrame(r) && IsFrame(q) && va < U32 && pa < U32 && Bit(flags, 1)
    requires TakenOk(l, s, taken) && MapsAnyway(l, s, s', r, va, LeafEntry(pa, flags), taken)
    requires p < PAGES && Target(s.mem, q, p) == Some(FrameIn(pa)) && va / PAGE_SIZE < PAGES
    ensures Target(s'.mem, q, p) == Some(FrameIn(pa)) && Target(s'.mem, r, va / PAGE_SIZE) == Some(FrameIn(pa))
    ensures q != r || p != va / PAGE_SIZE
  {
    hide Inv, LeafPte, LeafEntry, MapsAnyway, VaVpn, Bit, TakenOk, PtePa, PteValid, PteReadable, IsRoot, IsFrame;
    VpnBounds(va);
    PageSplit(p);
    VpnPage(va);
    AnywayOnePage(l, s, s', r, va, pa, flags, taken, q, p / 1024, p % 1024);
    AnywayOnePage(l, s, s', r, va, pa, flags, taken, r, VaVpn(va, 1), VaVpn(va, 0));
    TargetIs(s'.mem, r, va);
    TargetIs(s.mem, r, va);
    LeafEntryIs(pa, flags);
  }

  lemma PageSplit(p: nat)
    requires p < PAGES
    ensures p / 1024 < PTES && p % 1024 < PTES && p == p / 1024 * 1024 + p % 1024
  {
  }

  lemma TargetLeaf(m: Mem, r: nat, p: nat)
    requires IsFrame(r) && p < PAGES && Target(m, r, p).Some?
    ensures p / 1024 < PTES && p % 1024 < PTES && LeafPte(m, r, p / 1024, p % 1024).Some?
    ensures PtePa(LeafPte(m, r, p / 1024, p % 1024).value) == Target(m, r, p).value
  {
    hide LeafPte, PtePa;
  }

  /** A counted frame is the target of one page of one root. */
  lemma OneOwner(l: Layout, s: Space, r: nat, p: nat, q: nat, o: nat)
    requires Inv(l, s) && IsRoot(s, r) && IsRoot(s, q) && IsFrame(r) && IsFrame(q) && p < PAGES && o < PAGES
    requires Target(s.mem, r, p).Some? && Target(s.mem, r, p) == Target(s.mem, q, o) && Counted(l, Target(s.mem, r, p).value)
    ensures r == q && p == o
  {
    hide Inv, LeafPte, PtePa, IsFrame, IsRoot, Counted, Entry;
    TargetLeaf(s.mem, r, p);
    TargetLeaf(s.mem, q, o);
    CountedOnce(l, s, r, p / 1024, p % 1024, q, o / 1024, o % 1024);
    PageSplit(p);
    PageSplit(o);
  }

  /** A page whose target is not counted is mapped to itself. */
  lemma UncountedIsSelf(l: Layout, s: Space, r: nat, p: nat)
    requires Inv(l, s) && IsRoot(s, r) && IsFrame(r) && p < PAGES && Target(s.mem, r, p).Some?
    ensures var f := Target(s.mem, r, p).value; Counted(l, f) || f == p * PAGE_SIZE
  {
    hide Inv, LeafPte, PtePa, IsFrame, IsRoot, Counted, Entry;
    TargetLeaf(s.mem, r, p);
    PageSplit(p);
    LeafSelf(l, s, r, p / 1024, p % 1024);
  }

  lemma LeafSelf(l: Layout, s: Space, r: nat, i: nat, j: nat)
    requires Inv(l, s) && IsRoot(s, r) && i < PTES && j < PTES && LeafPte(s.mem, r, i, j).Some?
    ensures var f := PtePa(LeafPte(s.mem, r, i, j).value); Counted(l, f) || f == PageVa(i, j)
  {
    hide Pte, PteValid, PteReadable, PtePa, PteIsLeaf, MakePte, InHole, Counted;
    var n := PtePa(Pte(s.mem, r, i));
    assert RootEntry(s, r, i);
    FrameOf(Pte(s.mem, r, i));
    assert NodeEntry(l, s, n, j);
  }

  /** No two pages of a root have the same target. */
  lemma OneTarget(l: Layout, s: Space, r: nat, p: nat, o: nat)
    requires Inv(l, s) && IsRoot(s, r) && IsFrame(r) && p < PAGES && o < PAGES
    requires Target(s.mem, r, p).Some? && Target(s.mem, r, p) == Target(s.mem, r, o)
    ensures p == o
  {
    hide Inv, IsFrame, IsRoot, Counted, Entry, PtePa;
    UncountedIsSelf(l, s, r, p);
    UncountedIsSelf(l, s, r, o);
    if Counted(l, Target(s.mem, r, p).value) {
      OneOwner(l, s, r, p, r, o);
    }
  }

  lemma OtherTarget(l: Layout, s: Space, r: nat, p: nat, o: nat)
    requires Inv(l, s) && IsRoot(s, r) && IsFrame(r) && p < o < PAGES && Target(s.mem, r, p).Some? && Target(s.mem, r, o).Some?
    ensures Target(s.mem, r, p).value != Target(s.mem, r, o).value
  {
    hide Inv, IsFrame, IsRoot, Entry, PtePa;
    if Target(s.mem, r, p) == Target(s.mem, r, o) {
      OneTarget(l, s, r, p, o);
    }
  }

  /** Numbers below n that are pairwise different and miss one are fewer than n. */
  lemma {:induction false} Pigeons(xs: seq<nat>, n: nat, x: nat)
    requires (forall k | 0 <= k < |xs| :: xs[k] < n && xs[k] != x) && x < n
    requires forall j, k | 0 <= j < k < |xs| :: xs[j] != xs[k]
    ensures |xs| < n
  {
    var S := Numbers(n);
    Distinct(xs, S - {x});
  }

  lemma {:induction false} Distinct(xs: seq<nat>, S: set<nat>)
    requires (forall k | 0 <= k < |xs| :: xs[k] in S) && forall j, k | 0 <= j < k < |xs| :: xs[j] != xs[k]
    ensures |xs| <= |S|
    decreases |xs|
  {
    if xs != [] {
      var n := |xs| - 1;
      Distinct(xs[..n], S - {xs[n]});
    }
  }

  lemma {:induction false} Numbers(n: nat) returns (S: set<nat>)
    ensures |S| == n && forall k: nat :: k in S <==> k < n
  {
    if n == 0 {
      S := {};
    } else {
      S := Numbers(n - 1);
      S := S + {n - 1};
    }
  }

  /** No page table maps every page: two pages never share a target, and none has the root as target. */
  lemma SomePageUnmapped(l: Layout, s: Space, r: nat)
    requires Inv(l, s) && IsRoot(s, r) && IsFrame(r)
    ensures exists p :: 0 <= p < PAGES && Target(s.mem, r, p) == None
  {
    hide Inv, IsFrame, IsRoot, Entry, PtePa;
    RootPage(r);
    if forall p | 0 <= p < PAGES :: Target(s.mem, r, p).Some? {
      var xs: seq<nat> := seq(PAGES, p requires 0 <= p < PAGES => Target(s.mem, r, p).value / PAGE_SIZE);
      forall p | 0 <= p < PAGES ensures xs[p] < PAGES && xs[p] != r / PAGE_SIZE && Target(s.mem, r, p).value == xs[p] * PAGE_SIZE {
        TargetPage(l, s, r, p);
      }
      forall p, o | 0 <= p < o < PAGES ensures xs[p] != xs[o] {
        assert Target(s.mem, r, p).value == xs[p] * PAGE_SIZE && Target(s.mem, r, o).value == xs[o] * PAGE_SIZE;
        OtherTarget(l, s, r, p, o);
      }
      Pigeons(xs, PAGES, r / PAGE_SIZE);
      assert false;
    }
  }

  lemma RootPage(r: nat)
    requires IsFrame(r)
    ensures r / PAGE_SIZE < PAGES && r == r / PAGE_SIZE * PAGE_SIZE
  {
  }

  lemma TargetPage(l: Layout, s: Space, r: nat, p: nat)
    requires Inv(l, s) && IsRoot(s, r) && IsFrame(r) && p < PAGES && Target(s.mem, r, p).Some?
    ensures var f := Target(s.mem, r, p).value; f == f / PAGE_SIZE * PAGE_SIZE && f / PAGE_SIZE < PAGES && f != r
  {
    hide Inv, IsFrame, Entry, PtePa;
    TablesUnreachable(l, s, r, p);
    TargetIsFrame(s.mem, r, p);
    RootPage(Target(s.mem, r, p).value);
  }

  lemma TargetIsFrame(m: Mem, r: nat, p: nat)
    requires IsFrame(r) && p < PAGES && Target(m, r, p).Some?
    ensures var f := Target(m, r, p).value; IsFrame(f) && f % PAGE_SIZE == 0 && f + PAGE_SIZE <= U32
  {
    hide PtePa, PteValid, Pte;
    TargetLeaf(m, r, p);
    FrameOf(LeafPte(m, r, p / 1024, p % 1024).value);
  }

  /** No page is mapped to a root or a node. */
  lemma TablesUnreachable(l: Layout, s: Space, r: nat, p: nat)
    requires Inv(l, s) && IsRoot(s, r) && IsFrame(r) && p < PAGES && Target(s.mem, r, p).Some?
    ensures var f := Target(s.mem, r, p).value; f in s.own ==> s.own[f].Leaf?
  {
    hide RolesOk, EntriesOk, LeafPte, PtePa, IsFrame, IsRoot, Entry, InHole;
    TargetLeaf(s.mem, r, p);
    var f := Target(s.mem, r, p).value;
    if f in s.own {
      assert Counted(l, f);
      LeafOwner(l, s, r, p / 1024, p % 1024);
    }
  }
}
