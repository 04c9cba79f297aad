/** The operations of the address-space manager as runs of locked steps. */
module Transactions {
  import opened Base
  import opened Bits
  import opened Memory
  import opened Sv32
  import opened Translation
  import opened Holes
  import opened PageTables
  import opened Mappings
  import opened Interleaving

  /** Some run of steps leads from c to d. */
  ghost predicate Leads(l: Layout, c: System, d: System) {
    exists cs: seq<System>, steps: seq<Step> :: IsRun(l, cs, steps) && cs[0] == c && cs[|steps|] == d
  }

  lemma LeadsSelf(l: Layout, c: System)
    ensures Leads(l, c, c)
  {
    hide Enabled, Act;
    assert IsRun(l, [c], []);
  }

  lemma LeadsOn(l: Layout, c: System, d: System, step: Step)
    requires Leads(l, c, d) && Enabled(l, d, step)
    ensures Leads(l, c, Act(l, d, step))
  {
    hide Enabled, Act;
    var cs: seq<System>, steps: seq<Step> :| IsRun(l, cs, steps) && cs[0] == c && cs[|steps|] == d;
    var cs', steps' := cs + [Act(l, d, step)], steps + [step];
    forall k | 0 <= k < |steps'| ensures Enabled(l, cs'[k], steps'[k]) && cs'[k + 1] == Act(l, cs'[k], steps'[k]) {
      if k < |steps| {
        assert Enabled(l, cs[k], steps[k]) && cs[k + 1] == Act(l, cs[k], steps[k]);
      }
    }
    assert IsRun(l, cs', steps');
  }

  lemma LeadsBoth(l: Layout, c: System, d: System, e: System)
    requires Leads(l, c, d) && Leads(l, d, e)
    ensures Leads(l, c, e)
  {
    hide Enabled, Act;
    var cs: seq<System>, steps: seq<Step> :| IsRun(l, cs, steps) && cs[0] == c && cs[|steps|] == d;
    var ds: seq<System>, more: seq<Step> :| IsRun(l, ds, more) && ds[0] == d && ds[|more|] == e;
    var es, all := cs + ds[1..], steps + more;
    forall k | 0 <= k < |all| ensures Enabled(l, es[k], all[k]) && es[k + 1] == Act(l, es[k], all[k]) {
      if k < |steps| {
        assert Enabled(l, cs[k], steps[k]) && cs[k + 1] == Act(l, cs[k], steps[k]);
      } else {
        var m := k - |steps|;
        assert Enabled(l, ds[m], more[m]) && ds[m + 1] == Act(l, ds[m], more[m]);
        assert es[k] == ds[m];
      }
    }
    assert IsRun(l, es, all);
  }

  lemma LeadsKeeps(l: Layout, c: System, d: System)
    requires SystemInv(l, c) && Leads(l, c, d)
    ensures SystemInv(l, d)
  {
    hide SystemInv, Enabled, Act;
    var cs: seq<System>, steps: seq<Step> :| IsRun(l, cs, steps) && cs[0] == c && cs[|steps|] == d;
    RunKeeps(l, cs, steps, |steps|);
  }

  /** Frames in holes are skipped one by one. */
  lemma {:induction false} SkipAll(l: Layout, c: System, d: System, H: set<nat>)
    requires Leads(l, c, d) && forall f <- H :: Takeable(l, d, f) && InHole(l.holes, f)
    ensures Leads(l, c, d.(sp := Take(d.sp, H)))
    decreases H
  {
    hide InHole, IsFrame, Leads;
    if H == {} {
      assert Take(d.sp, {}) == d.sp;
    } else {
      var f :| f in H;
      var e := Act(l, d, SkipHole(f));
      LeadsOn(l, c, d, SkipHole(f));
      SkipAll(l, c, e, H - {f});
      assert Take(e.sp, H - {f}) == Take(d.sp, H);
    }
  }

  /** Frames that were taken, one of them outside the holes, by thread t. */
  lemma TakeAll(l: Layout, c: System, t: Thread, taken: set<nat>, f: nat)
    requires TakenOk(l, c.sp, taken) && f in taken && !InHole(l.holes, f) && forall g <- taken :: g == f || InHole(l.holes, g)
    ensures Leads(l, c, c.(sp := Take(c.sp, taken), flight := c.flight[f := t]))
  {
    hide InHole, IsFrame, Leads;
    LeadsSelf(l, c);
    SkipAll(l, c, c, taken - {f});
    var d := c.(sp := Take(c.sp, taken - {f}));
    LeadsOn(l, c, d, TakeFrame(t, f));
    assert Take(Take(c.sp, taken - {f}), {f}) == Take(c.sp, taken);
  }

  lemma NotInFlight(l: Layout, c: System, f: nat)
    requires SystemInv(l, c) && f !in c.sp.used
    ensures f !in c.flight
  {
    hide Inv, IsFrame, InHole, WalkOk;
  }

  /** Creating a page table is a run: frames in holes are skipped, then one frame is taken and becomes a root. */
  lemma CreateIsRun(l: Layout, c: System, t: Thread, taken: set<nat>, r: nat)
    requires SystemInv(l, c) && TakenOk(l, c.sp, taken) && r in taken && Fresh(l, Take(c.sp, taken), r)
    requires forall f <- taken :: f == r || InHole(l.holes, f)
    ensures IsFrame(r) && Leads(l, c, c.(sp := NewRoot(Take(c.sp, taken), r)))
  {
    hide SystemInv, IsFrame, InHole, Leads, NewRoot;
    NotInFlight(l, c, r);
    TakeAll(l, c, t, taken, r);
    var d := c.(sp := Take(c.sp, taken), flight := c.flight[r := t]);
    LeadsOn(l, c, d, MakeRoot(t, r));
    assert c.flight[r := t] - {r} == c.flight;
  }

  /** Making sure that a root has a node under entry i is a run. */
  lemma DescendIsRun(l: Layout, c: System, t: Thread, s1: Space, r: nat, i: nat, taken: set<nat>)
    requires SystemInv(l, c) && IsRoot(c.sp, r) && i < PTES && TakenOk(l, c.sp, taken) && Descends(l, c.sp, s1, r, i, taken)
    requires forall f <- taken :: f in s1.own || InHole(l.holes, f)
    ensures Leads(l, c, c.(sp := s1))
  {
    hide SystemInv, InHole, IsFrame, Leads, Pte, PteValid, NewNode, Takeable;
    LeadsSelf(l, c);
    if !PteValid(Pte(c.sp.mem, r, i)) {
      var f :| f in taken && Fresh(l, Take(c.sp, taken), f) && s1 == NewNode(Take(c.sp, taken), r, i, f);
      OwnedInUse(l, c);
      NewNodeOwns(Take(c.sp, taken), r, i, f);
      NotInFlight(l, c, f);
      TakeAll(l, c, t, taken, f);
      var d := c.(sp := Take(c.sp, taken), flight := c.flight[f := t]);
      LeadsOn(l, c, d, LinkNode(t, r, i, f));
      assert c.flight[f := t] - {f} == c.flight;
    }
  }

  lemma NewNodeOwns(s: Space, r: nat, i: nat, f: nat)
    requires IsFrame(f) && IsFrame(r) && i < PTES
    ensures NewNode(s, r, i, f).own.Keys == s.own.Keys + {f}
  {
    hide MakePte, SetPte, ZeroPage, IsFrame;
  }

  lemma OwnedInUse(l: Layout, c: System)
    requires SystemInv(l, c)
    ensures c.sp.own.Keys <= c.sp.used && Inv(l, c.sp)
  {
    hide RolesOk, EntriesOk, IsFrame, InHole, WalkOk;
  }

  /** Mapping a page is a run, in which thread t uses the frame that it holds for the page. */
  lemma MapIsRun(l: Layout, c: System, t: Thread, s': Space, r: nat, va: nat, pa: nat, flags: nat, taken: set<nat>)
    requires SystemInv(l, c) && MapsTo(l, c.sp, s', r, va, pa, flags, taken)
    requires forall f <- taken :: f in s'.own || InHole(l.holes, f)
    requires Counted(l, FrameIn(pa)) ==> Holds(c, t, FrameIn(pa))
    ensures Leads(l, c, c.(sp := s', flight := if Counted(l, FrameIn(pa)) then c.flight - {FrameIn(pa)} else c.flight))
  {
    hide SystemInv, InHole, IsFrame, Leads, Pte, PteValid, PteReadable, PtePa, NewLeaf, LeafEntry, VaVpn, Bit, Counted,
      Inv, Descends, Maps, Under, PageVa, Fresh, TakenOk, FrameIn;
    var i, j, pte := VaVpn(va, 1), VaVpn(va, 0), LeafEntry(pa, flags);
    VpnBounds(va);
    LeafEntryIs(pa, flags);
    SmallEntry(pa, flags);
    PageVaIs(va);
    var s1, n := MapsSteps(l, c.sp, s', r, va, pte, taken);
    TakenOwned(l, c, s1, s', r, i, n, j, pte, taken);
    DescendIsRun(l, c, t, s1, r, i, taken);
    LeadsOn(l, c, c.(sp := s1), LinkLeaf(t, r, i, n, j, pte));
    FrameInIs(pa);
  }

  lemma FrameInIs(pa: nat)
    ensures FrameIn(pa) == pa - pa % PAGE_SIZE
  {
  }

  /** The frames taken for a node are owned before the leaf is written. */
  lemma TakenOwned(l: Layout, c: System, s1: Space, s': Space, r: nat, i: nat, n: nat, j: nat, pte: nat, taken: set<nat>)
    requires SystemInv(l, c) && IsRoot(c.sp, r) && i < PTES && TakenOk(l, c.sp, taken) && Descends(l, c.sp, s1, r, i, taken)
    requires IsFrame(n) && j < PTES && pte < U32 && s' == NewLeaf(l, s1, n, j, pte)
    requires Counted(l, PtePa(pte)) ==> PtePa(pte) in c.flight
    requires forall f <- taken :: f in s'.own || InHole(l.holes, f)
    ensures forall f <- taken :: f in s1.own || InHole(l.holes, f)
  {
    hide Inv, InHole, IsFrame, Pte, PteValid, PtePa, SetPte, Counted, WalkOk, Descends;
    forall f <- taken ensures f in s1.own || InHole(l.holes, f) {
      if f in c.flight {
        assert Fresh(l, c.sp, f);
      }
    }
  }

  /** Taking a new frame and mapping a page to it is a run. */
  lemma NewPageIsRun(l: Layout, c: System, t: Thread, t0: set<nat>, f: nat, s': Space, r: nat, va: nat, flags: nat, taken: set<nat>)
    requires SystemInv(l, c) && TakenFor(l, c.sp, t0, f) && IsRoot(c.sp, r) && Counted(l, f) && f % PAGE_SIZE == 0
    requires MapsTo(l, Take(c.sp, t0), s', r, va, f, flags, taken) && forall g <- taken :: g in s'.own || InHole(l.holes, g)
    ensures Leads(l, c, c.(sp := s'))
  {
    hide SystemInv, InHole, IsFrame, Leads, Counted, MapsTo, Bit, IsRoot;
    TakenForOk(l, c.sp, t0, f);
    NotInFlight(l, c, f);
    TakeAll(l, c, t, t0, f);
    var d := c.(sp := Take(c.sp, t0), flight := c.flight[f := t]);
    LeadsKeeps(l, c, d);
    MapIsRun(l, d, t, s', r, va, f, flags, taken);
    assert c.flight[f := t] - {f} == c.flight;
    LeadsBoth(l, c, d, c.(sp := s'));
  }

  /** Frames in flight are given back one by one. */
  lemma {:induction false} GiveAll(l: Layout, c: System, d: System, t: Thread, F: set<nat>)
    requires Leads(l, c, d) && forall f <- F :: Holds(d, t, f)
    ensures Leads(l, c, d.(sp := d.sp.(used := d.sp.used - F), flight := d.flight - F))
    decreases F
  {
    hide Leads;
    if F == {} {
      assert d.sp.used - F == d.sp.used && d.flight - F == d.flight;
    } else {
      var f :| f in F;
      var e := Act(l, d, GiveBack(t, f));
      LeadsOn(l, c, d, GiveBack(t, f));
      GiveAll(l, c, e, t, F - {f});
      assert e.sp.used - (F - {f}) == d.sp.used - F && e.flight - (F - {f}) == d.flight - F;
    }
  }

  /** Freeing a page table, walked or not, is a run: it is detached, and its frames are given back. */
  lemma FreeIsRun(l: Layout, c: System, t: Thread, r: nat)
    requires SystemInv(l, c) && IsRoot(c.sp, r)
    ensures Leads(l, c, c.(sp := DropRoot(c.sp, r)))
  {
    hide SystemInv, IsFrame, InHole, Leads, Reached;
    LeadsSelf(l, c);
    LeadsOn(l, c, c, Detach(t, r));
    var F := Family(c.sp.own, r);
    var d := Act(l, c, Detach(t, r));
    GiveAll(l, c, d, t, F);
    FamilyGrounded(l, c, r);
    assert (c.flight + FlightOf(F, t)) - F == c.flight;
  }

  /** A frame that a page table owns is not in flight. */
  lemma FamilyGrounded(l: Layout, c: System, r: nat)
    requires SystemInv(l, c) && IsRoot(c.sp, r)
    ensures Family(c.sp.own, r) !! c.flight.Keys
  {
    hide Inv, InHole, IsFrame, WalkOk, Beneath;
    forall f <- c.flight ensures f !in Family(c.sp.own, r) {
      assert Fresh(l, c.sp, f);
    }
  }
}
