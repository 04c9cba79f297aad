/** Threads that take frames, map pages, walk and free page tables, interleaved one locked step at a time. */
module Interleaving {
  import opened Base
  import opened Bits
  import opened Memory
  import opened Sv32
  import opened Translation
  import opened Holes
  import opened PageTables
  import opened Mappings

  type Thread = nat

  /** Where a walk stands: before its first read, between the two reads, or finished. */
  datatype Pc = AtRoot(r: nat, va: nat) | AtNode(r: nat, va: nat, n: nat) | Finished(r: nat, va: nat, w: Walked)

  /** The page tables, the frames in flight with the thread that holds each, and the walk of each thread. */
  datatype System = System(sp: Space, flight: map<nat, Thread>, walks: map<Thread, Pc>)

  datatype Step =
    | TakeFrame(t: Thread, f: nat)
    | SkipHole(f: nat)
    | GiveBack(t: Thread, f: nat)
    | MakeRoot(t: Thread, f: nat)
    | LinkNode(t: Thread, r: nat, i: nat, f: nat)
    | LinkLeaf(t: Thread, r: nat, i: nat, n: nat, j: nat, pte: nat)
    | Detach(t: Thread, r: nat)
    | StartWalk(t: Thread, r: nat, va: nat)
    | ReadRoot(t: Thread)
    | ReadNode(t: Thread)

  ghost predicate Holds(c: System, t: Thread, f: nat) {
    f in c.flight && c.flight[f] == t
  }

  ghost predicate Walking(c: System, t: Thread) {
    t in c.walks && !c.walks[t].Finished?
  }

  ghost predicate Takeable(l: Layout, c: System, f: nat) {
    f !in c.sp.used && IsFrame(f) && 0 < f && l.lo <= f < l.hi
  }

  /** When a step can happen. A root can be freed at any time, also while threads walk it. */
  ghost predicate Enabled(l: Layout, c: System, step: Step) {
    match step
    case TakeFrame(t, f) => Takeable(l, c, f) && !InHole(l.holes, f)
    case SkipHole(f) => Takeable(l, c, f) && InHole(l.holes, f)
    case GiveBack(t, f) => Holds(c, t, f)
    case MakeRoot(t, f) => Holds(c, t, f) && IsFrame(f)
    case LinkNode(t, r, i, f) => Holds(c, t, f) && IsFrame(f) && IsRoot(c.sp, r) && i < PTES && !PteValid(Pte(c.sp.mem, r, i))
    case LinkLeaf(t, r, i, n, j, pte) =>
      && Under(c.sp, r, i, n) && j < PTES && pte < U32 && PteValid(pte) && PteReadable(pte) && SmallPpn(pte)
      && !PteValid(Pte(c.sp.mem, n, j)) && (if Counted(l, PtePa(pte)) then Holds(c, t, PtePa(pte)) else PtePa(pte) == PageVa(i, j))
    case Detach(t, r) => IsRoot(c.sp, r)
    case StartWalk(t, r, va) => IsRoot(c.sp, r) && va < U32 && !Walking(c, t)
    case ReadRoot(t) => t in c.walks && c.walks[t].AtRoot? && c.walks[t].va < U32 && IsFrame(c.walks[t].r)
    case ReadNode(t) => t in c.walks && c.walks[t].AtNode? && c.walks[t].va < U32 && IsFrame(c.walks[t].n)
  }

  ghost function Release(s: Space, f: nat): Space {
    s.(used := s.used - {f})
  }

  /** The family of r changes from owned to in flight. */
  ghost function DetachRoot(s: Space, r: nat): Space {
    s.(own := s.own - Family(s.own, r))
  }

  ghost function FlightOf(F: set<nat>, t: Thread): map<nat, Thread> {
    map f | f in F :: t
  }

  /** What a walk does with its first read, of the entry of the root. */
  function AfterRoot(r: nat, va: nat, pte: nat): Pc
    requires pte < U32
  {
    match WalkPte(pte, va, 1)
    case Done(w) => Finished(r, va, w)
    case Next(n) => AtNode(r, va, n)
  }

  /** What a walk does with its second read, of the entry of the node. */
  function AfterNode(r: nat, va: nat, pte: nat): Pc
    requires pte < U32
  {
    match WalkPte(pte, va, 0)
    case Done(w) => Finished(r, va, w)
    case Next(_) => Finished(r, va, Fault(NoLeaf))
  }

  ghost function Act(l: Layout, c: System, step: Step): System
    requires Enabled(l, c, step)
  {
    match step
    case TakeFrame(t, f) => c.(sp := Take(c.sp, {f}), flight := c.flight[f := t])
    case SkipHole(f) => c.(sp := Take(c.sp, {f}))
    case GiveBack(t, f) => c.(sp := Release(c.sp, f), flight := c.flight - {f})
    case MakeRoot(t, f) => c.(sp := NewRoot(c.sp, f), flight := c.flight - {f})
    case LinkNode(t, r, i, f) => c.(sp := NewNode(c.sp, r, i, f), flight := c.flight - {f})
    case LinkLeaf(t, r, i, n, j, pte) =>
      c.(sp := NewLeaf(l, c.sp, n, j, pte), flight := if Counted(l, PtePa(pte)) then c.flight - {PtePa(pte)} else c.flight)
    case Detach(t, r) => c.(sp := DetachRoot(c.sp, r), flight := c.flight + FlightOf(Family(c.sp.own, r), t))
    case StartWalk(t, r, va) => c.(walks := c.walks[t := AtRoot(r, va)])
    case ReadRoot(t) =>
      var r, va := c.walks[t].r, c.walks[t].va;
      c.(walks := c.walks[t := AfterRoot(r, va, Pte(c.sp.mem, r, VaVpn(va, 1)))])
    case ReadNode(t) =>
      var r, va := c.walks[t].r, c.walks[t].va;
      c.(walks := c.walks[t := AfterNode(r, va, Pte(c.sp.mem, c.walks[t].n, VaVpn(va, 0)))])
  }

  /** Frames in flight are in use, but no page table owns them. */
  ghost predicate FlightOk(l: Layout, c: System) {
    forall f <- c.flight :: Fresh(l, c.sp, f)
  }

  /** A walk of a root that was not freed: between its two reads it holds a node that the root still points to. */
  ghost predicate WalkOk(s: Space, pc: Pc) {
    match pc
    case AtRoot(r, va) => IsRoot(s, r) && va < U32
    case AtNode(r, va, n) => IsRoot(s, r) && va < U32 && WalkPte(Pte(s.mem, r, VaVpn(va, 1)), va, 1) == Next(n)
    case Finished(_, _, _) => true
  }

  ghost predicate SystemInv(l: Layout, c: System) {
    Inv(l, c.sp) && FlightOk(l, c)
  }

  // ---- what every step keeps ----

  lemma ReleaseInv(l: Layout, s: Space, f: nat)
    requires Inv(l, s) && f !in s.own
    ensures Inv(l, Release(s, f))
  {
    hide Pte, PteValid, PteReadable, PteIsLeaf, PtePa, MakePte, InHole, IsFrame, Counted;
    var t := Release(s, f);
    forall g <- t.own ensures RoleOk(t, g) {
      assert RoleOk(s, g);
    }
    forall q, k | q in t.own && t.own[q].Root? && 0 <= k < PTES && IsFrame(q) ensures RootEntry(t, q, k) {
      assert RootEntry(s, q, k);
    }
    forall p, k | p in t.own && t.own[p].Node? && 0 <= k < PTES && IsFrame(p) ensures NodeEntry(l, t, p, k) {
      assert NodeEntry(l, s, p, k);
    }
  }

  lemma DetachInv(l: Layout, s: Space, r: nat)
    requires Inv(l, s) && IsRoot(s, r)
    ensures Inv(l, DetachRoot(s, r)) && Family(s.own, r) <= s.own.Keys
  {
    hide IsFrame, RolesOk, EntriesOk, InHole, Beneath;
    DropRootInv(l, s, r);
    var F := Family(s.own, r);
    assert F <= s.used;
    TakeInv(l, DropRoot(s, r), F);
    assert DetachRoot(s, r) == Take(DropRoot(s, r), F);
  }

  lemma FrameFacts(l: Layout, s: Space, f: nat)
    requires FramesOk(l, s) && f in s.used
    ensures IsFrame(f) && 0 < f && l.lo <= f < l.hi && (f in s.own ==> !InHole(l.holes, f))
  {
    hide IsFrame, InHole;
  }

  lemma NodeIsTable(s: Space, r: nat, i: nat, n: nat)
    requires Under(s, r, i, n)
    ensures IsFrame(n) && n in s.own && s.own[n] == Node(r, i) && IsRoot(s, r) && i < PTES
  {
  }

  lemma StepInv(l: Layout, c: System, step: Step)
    requires SystemInv(l, c) && Enabled(l, c, step)
    ensures Inv(l, Act(l, c, step).sp)
  {
    hide Inv, IsFrame, InHole, Pte, PteValid, PteReadable, PtePa, Counted, WalkOk, AfterRoot, AfterNode, NewRoot,
      NewNode, NewLeaf, Under, Family;
    match step
    case TakeFrame(t, f) => TakeInv(l, c.sp, {f});
    case SkipHole(f) => TakeInv(l, c.sp, {f});
    case GiveBack(t, f) =>
      assert Fresh(l, c.sp, f);
      ReleaseInv(l, c.sp, f);
    case MakeRoot(t, f) =>
      assert Fresh(l, c.sp, f);
      NewRootInv(l, c.sp, f);
    case LinkNode(t, r, i, f) =>
      assert Fresh(l, c.sp, f);
      NewNodeInv(l, c.sp, r, i, f);
    case LinkLeaf(t, r, i, n, j, pte) =>
      NodeIsTable(c.sp, r, i, n);
      assert Counted(l, PtePa(pte)) ==> Fresh(l, c.sp, PtePa(pte));
      NewLeafInv(l, c.sp, n, j, pte);
    case Detach(t, r) => DetachInv(l, c.sp, r);
    case StartWalk(t, r, va) =>
    case ReadRoot(t) =>
    case ReadNode(t) =>
  }

  /** A valid entry of a table that is owned never changes. */
  lemma EntryKept(l: Layout, c: System, step: Step, p: nat, k: nat)
    requires SystemInv(l, c) && Enabled(l, c, step) && p in c.sp.own && IsFrame(p) && k < PTES && PteValid(Pte(c.sp.mem, p, k))
    ensures Pte(Act(l, c, step).sp.mem, p, k) == Pte(c.sp.mem, p, k)
  {
    hide Inv, InHole, Pte, PteValid, PteReadable, PtePa, Counted, WalkOk, AfterRoot, AfterNode, ZeroPage, SetPte,
      MakePte, Family, IsFrame;
    match step
    case MakeRoot(t, f) =>
      assert Fresh(l, c.sp, f);
      PteZeroed(c.sp.mem, f, p, k);
    case LinkNode(t, r, i, f) =>
      assert Fresh(l, c.sp, f);
      PteZeroed(c.sp.mem, f, p, k);
      FrameBound(f);
      PteSet(ZeroPage(c.sp.mem, f), r, i, MakePte(f, V), p, k);
    case LinkLeaf(t, r, i, n, j, pte) =>
      PteSet(c.sp.mem, n, j, pte, p, k);
    case _ =>
  }

  /** A root stays a root until it is detached. */
  lemma RootKept(l: Layout, c: System, step: Step, r: nat)
    requires SystemInv(l, c) && Enabled(l, c, step) && IsRoot(c.sp, r) && !(step.Detach? && step.r == r)
    ensures IsRoot(Act(l, c, step).sp, r)
  {
    hide Inv, InHole, Pte, PteValid, PteReadable, PtePa, WalkOk, AfterRoot, AfterNode, ZeroPage, SetPte, MakePte, IsFrame;
  }

  lemma FlightKept(l: Layout, c: System, step: Step)
    requires SystemInv(l, c) && Enabled(l, c, step)
    ensures FlightOk(l, Act(l, c, step))
  {
    hide RolesOk, EntriesOk, InHole, Pte, PteValid, PteReadable, PtePa, WalkOk, AfterRoot, AfterNode, ZeroPage, SetPte,
      MakePte, IsFrame, Beneath;
    if step.Detach? {
      DetachInv(l, c.sp, step.r);
    }
    if step.LinkLeaf? {
      NodeIsTable(c.sp, step.r, step.i, step.n);
    }
    forall f <- Act(l, c, step).flight ensures Fresh(l, Act(l, c, step).sp, f) {
      if f in c.sp.own {
        FrameFacts(l, c.sp, f);
      }
    }
  }

  /** A walk that a step does not move keeps what it relies on. */
  lemma WalkKept(l: Layout, c: System, step: Step, pc: Pc)
    requires SystemInv(l, c) && Enabled(l, c, step) && WalkOk(c.sp, pc) && (step.Detach? ==> pc.Finished? || pc.r != step.r)
    ensures WalkOk(Act(l, c, step).sp, pc)
  {
    hide SystemInv, Enabled, Act, Pte, PteReadable, PteWritable, PteIsLeaf, PtePa, VaVpn, Misaligned, SuperpagePa, PagePa;
    if !pc.Finished? {
      RootKept(l, c, step, pc.r);
      VpnInside(pc.va);
      if pc.AtNode? {
        EntryKept(l, c, step, pc.r, VaVpn(pc.va, 1));
      }
    }
  }

  lemma VpnInside(va: nat)
    requires va < U32
    ensures VaVpn(va, 1) < PTES && VaVpn(va, 0) < PTES
  {
  }

  lemma RootReadOk(s: Space, r: nat, va: nat)
    requires IsRoot(s, r) && va < U32
    ensures WalkOk(s, AfterRoot(r, va, Pte(s.mem, r, VaVpn(va, 1))))
  {
    hide IsFrame, Pte, VaVpn, WalkPte;
  }

  /** Every step keeps the invariant. */
  lemma StepKeeps(l: Layout, c: System, step: Step)
    requires SystemInv(l, c) && Enabled(l, c, step)
    ensures SystemInv(l, Act(l, c, step))
  {
    hide Inv, FlightOk, Enabled, Act;
    StepInv(l, c, step);
    FlightKept(l, c, step);
  }

  // ---- walks are atomic ----

  /** Thread t walks root r for address va. */
  ghost predicate Walks(c: System, t: Thread, r: nat, va: nat) {
    Walking(c, t) && c.walks[t].r == r && c.walks[t].va == va
  }

  /** The step that finishes a walk of a root returns what an atomic walk would return at that instant. */
  lemma WalkIsAtomic(l: Layout, c: System, step: Step, t: Thread, r: nat, va: nat)
    requires SystemInv(l, c) && Enabled(l, c, step) && Walks(c, t, r, va) && WalkOk(c.sp, c.walks[t])
    requires t in Act(l, c, step).walks && Act(l, c, step).walks[t].Finished?
    ensures Act(l, c, step).sp == c.sp && IsRoot(c.sp, r) && IsFrame(r) && va < U32
    ensures Act(l, c, step).walks[t] == Finished(r, va, Walk(c.sp.mem, r, va))
  {
    hide Inv, Pte, VaVpn, WalkPte, FlightOk, Under, NewRoot, NewNode, NewLeaf, DetachRoot, InHole;
  }

  lemma ReadingRoot(c: System, t: Thread)
    requires t in c.walks && !c.walks[t].Finished? && WalkOk(c.sp, c.walks[t])
    ensures IsRoot(c.sp, c.walks[t].r) && c.walks[t].va < U32
  {
  }

  /** One step of a walk in progress, while the root is not freed. */
  lemma WalkGoesOn(l: Layout, c: System, step: Step, t: Thread, r: nat, va: nat)
    requires SystemInv(l, c) && Enabled(l, c, step) && Walks(c, t, r, va) && WalkOk(c.sp, c.walks[t])
    requires !(step.Detach? && step.r == r) && Walking(Act(l, c, step), t)
    ensures Walks(Act(l, c, step), t, r, va) && WalkOk(Act(l, c, step).sp, Act(l, c, step).walks[t])
  {
    hide Inv, Pte, PteValid, PteReadable, PteIsLeaf, PtePa, VaVpn, WalkPte, IsFrame, InHole, FlightOk, WalkOk, NewRoot,
      NewNode, NewLeaf, Counted, DetachRoot, FlightOf, Under, IsRoot;
    var d := Act(l, c, step);
    if d.walks[t] == c.walks[t] {
      WalkKept(l, c, step, c.walks[t]);
    } else {
      ReadingRoot(c, t);
      RootReadOk(c.sp, r, va);
    }
  }

  // ---- runs ----

  ghost predicate IsRun(l: Layout, cs: seq<System>, steps: seq<Step>) {
    && |cs| == |steps| + 1
    && forall k | 0 <= k < |steps| :: Enabled(l, cs[k], steps[k]) && cs[k + 1] == Act(l, cs[k], steps[k])
  }

  ghost const START: System := System(Space(ZERO, {}, map[]), map[], map[])

  lemma StartInv(l: Layout)
    ensures SystemInv(l, START)
  {
  }

  lemma {:induction false} RunKeeps(l: Layout, cs: seq<System>, steps: seq<Step>, k: nat)
    requires IsRun(l, cs, steps) && SystemInv(l, cs[0]) && k < |cs|
    ensures SystemInv(l, cs[k])
  {
    hide SystemInv, Enabled, Act;
    if k > 0 {
      RunKeeps(l, cs, steps, k - 1);
      StepKeeps(l, cs[k - 1], steps[k - 1]);
    }
  }

  /** From its start on, as long as its root is not freed, a walk is right. */
  lemma {:induction false} WalkHolds(l: Layout, cs: seq<System>, steps: seq<Step>, j: nat, k: nat, t: Thread, r: nat, va: nat)
    requires IsRun(l, cs, steps) && SystemInv(l, cs[0]) && j < k < |cs| && steps[j] == StartWalk(t, r, va)
    requires forall n | j < n <= k :: Walking(cs[n], t)
    requires forall n | j < n < k :: !(steps[n].Detach? && steps[n].r == r)
    ensures Walks(cs[k], t, r, va) && WalkOk(cs[k].sp, cs[k].walks[t])
    decreases k
  {
    hide SystemInv, Enabled, Act, WalkOk;
    if k == j + 1 {
      WalkStarts(l, cs[j], t, r, va);
    } else {
      WalkHolds(l, cs, steps, j, k - 1, t, r, va);
      RunKeeps(l, cs, steps, k - 1);
      assert Walking(cs[k], t) && cs[k - 1 + 1] == Act(l, cs[k - 1], steps[k - 1]);
      WalkGoesOn(l, cs[k - 1], steps[k - 1], t, r, va);
    }
  }

  lemma WalkStarts(l: Layout, c: System, t: Thread, r: nat, va: nat)
    requires Enabled(l, c, StartWalk(t, r, va))
    ensures var d := Act(l, c, StartWalk(t, r, va)); Walks(d, t, r, va) && WalkOk(d.sp, d.walks[t])
  {
  }

  /** In every run, a walk whose root is not freed between its start and its last read has the result of an atomic walk
    at that read. Any other root may be freed under its walkers meanwhile. */
  lemma WalksLinearize(l: Layout, cs: seq<System>, steps: seq<Step>, j: nat, k: nat, t: Thread, r: nat, va: nat)
    requires IsRun(l, cs, steps) && cs[0] == START && j < k < |steps| && steps[j] == StartWalk(t, r, va)
    requires (forall n | j < n <= k :: Walking(cs[n], t)) && t in cs[k + 1].walks && cs[k + 1].walks[t].Finished?
    requires forall n | j < n < k :: !(steps[n].Detach? && steps[n].r == r)
    ensures IsFrame(r) && va < U32 && cs[k + 1].walks[t] == Finished(r, va, Walk(cs[k].sp.mem, r, va))
  {
    hide SystemInv, Enabled, Act, Walk, IsFrame, WalkOk;
    StartInv(l);
    RunKeeps(l, cs, steps, k);
    WalkHolds(l, cs, steps, j, k, t, r, va);
    WalkIsAtomic(l, cs[k], steps[k], t, r, va);
  }

  /** A translation that exists stays the same until the page table is detached. */
  lemma TranslationKept(l: Layout, c: System, step: Step, r: nat, va: nat)
    requires SystemInv(l, c) && Enabled(l, c, step) && IsRoot(c.sp, r) && IsFrame(r) && va < U32 && !(step.Detach? && step.r == r)
    requires Walk(c.sp.mem, r, va).Pa?
    ensures IsRoot(Act(l, c, step).sp, r) && Walk(Act(l, c, step).sp.mem, r, va) == Walk(c.sp.mem, r, va)
  {
    hide Inv, Enabled, Act, Pte, VaVpn, PteReadable, PteWritable, PteIsLeaf, PteValid, PtePa, Misaligned, SuperpagePa,
      PagePa, IsFrame, InHole, Under,
      FlightOk, WalkOk;
    RootKept(l, c, step, r);
    VpnInside(va);
    var i, j := VaVpn(va, 1), VaVpn(va, 0);
    EntryKept(l, c, step, r, i);
    StepInv(l, c, step);
    WalkIsLookup(l, c.sp, r, va);
    var n := PtePa(Pte(c.sp.mem, r, i));
    ExistingNode(l, c.sp, r, i);
    NodeIsTable(c.sp, r, i, n);
    EntryKept(l, c, step, n, j);
  }

  lemma {:induction false} TranslationStable(l: Layout, cs: seq<System>, steps: seq<Step>, k: nat, m: nat, r: nat, va: nat)
    requires IsRun(l, cs, steps) && SystemInv(l, cs[0]) && k <= m < |cs| && IsRoot(cs[k].sp, r) && IsFrame(r) && va < U32
    requires forall n | k <= n < m :: !(steps[n].Detach? && steps[n].r == r)
    requires Walk(cs[k].sp.mem, r, va).Pa?
    ensures IsRoot(cs[m].sp, r) && Walk(cs[m].sp.mem, r, va) == Walk(cs[k].sp.mem, r, va)
    decreases m
  {
    hide SystemInv, Enabled, Act, Walk, IsFrame, IsRoot;
    if k < m {
      TranslationStable(l, cs, steps, k, m - 1, r, va);
      RunKeeps(l, cs, steps, m - 1);
      TranslationKept(l, cs[m - 1], steps[m - 1], r, va);
    }
  }

  /** In every state of every run, two page tables, or two pages of one, never share a counted frame, and no page
    of any table is mapped to a page table. */
  lemma RunsIsolate(l: Layout, cs: seq<System>, steps: seq<Step>, k: nat, r: nat, p: nat, q: nat, o: nat)
    requires IsRun(l, cs, steps) && cs[0] == START && k < |cs| && IsRoot(cs[k].sp, r) && IsRoot(cs[k].sp, q)
    requires IsFrame(r) && IsFrame(q)
    requires p < PAGES && o < PAGES && Target(cs[k].sp.mem, r, p).Some?
    ensures var f := Target(cs[k].sp.mem, r, p).value;
      && (Counted(l, f) && Target(cs[k].sp.mem, q, o) == Some(f) ==> r == q && p == o)
      && (f in cs[k].sp.own ==> cs[k].sp.own[f].Leaf?)
  {
    hide Enabled, Act, Entry, PtePa, IsFrame, IsRoot, Inv, Counted, WalkOk, FlightOk;
    StartInv(l);
    RunKeeps(l, cs, steps, k);
    TablesUnreachable(l, cs[k].sp, r, p);
    var f := Target(cs[k].sp.mem, r, p).value;
    if Counted(l, f) && Target(cs[k].sp.mem, q, o) == Some(f) {
      OneOwner(l, cs[k].sp, r, p, q, o);
    }
  }
}
