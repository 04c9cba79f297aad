/** Whole runs of the page allocator. */
module AllocatorRuns {
  import opened Intervals
  import opened AllocatorSpec
  import opened Bits
  import opened Sums64

  /** A request that succeeded, with its address, or a release. */
  datatype Op = Alloc(size: nat, a: nat) | Reserve(size: nat, a: nat) | Release(a: nat)

  /** One operation whose sums are right; a reservation that ends below the limit and starts at the base or above is. */
  ghost predicate Does(c: Config, ps: Pages, op: Op, ps': Pages)
    requires c.Ok()
  {
    match op
    case Alloc(size, a) => size <= U64 - c.pageAlign && Sound(c, ps, size) && Allocates(c, ps, size, a, ps')
    case Reserve(size, a) => Reserves(c, ps, a, size, ps') && c.base <= a
    case Release(a) => ps' == Without(ps, {a})
  }

  ghost predicate IsRun(c: Config, states: seq<Pages>, ops: seq<Op>)
    requires c.Ok()
  {
    && |states| == |ops| + 1 && states[0] == []
    && forall k | 0 <= k < |ops| :: Does(c, states[k], ops[k], states[k + 1])
  }

  /** A request that an empty allocator can serve inside its capacity. */
  ghost predicate Modest(c: Config, op: Op)
    requires c.Ok()
  {
    op.Alloc? ==> AlignUp(AlignUp(op.size, c.blockAlign), c.pageAlign) <= c.capacity
  }

  lemma StepKeeps(c: Config, ps: Pages, op: Op, ps': Pages)
    requires c.Ok() && StateOk(c, ps) && Does(c, ps, op, ps')
    ensures StateOk(c, ps')
    ensures Within(c, ps) && (ps != [] || Modest(c, op)) ==> Within(c, ps')
  {
    hide PagesOk, Within, Above, Bounded, Allocates, Reserves, Without, AlignUp, Sound;
    match op
    case Alloc(size, a) =>
      AllocateKeeps(c, ps, size, a, ps');
      AllocateAbove(c, ps, size, a, ps');
      FirstFits(c, ps, size, a, ps');
      AllocatesBounded(c, ps, size, a, ps');
      if Within(c, ps) {
        AllocateWithin(c, ps, size, a, ps');
      }
    case Reserve(size, a) =>
      ReserveKeeps(c, ps, a, size, ps');
      ReservesBounded(c, ps, a, size, ps');
    case Release(a) =>
      ReleaseKeeps(c, ps, {a});
      ReleaseAbove(c, ps, {a});
      ReleaseBounded(c, ps, {a});
      if Within(c, ps) {
        ReleaseWithin(c, ps, {a});
      }
  }

  lemma FirstFits(c: Config, ps: Pages, size: nat, a: nat, ps': Pages)
    requires c.Ok() && Sound(c, ps, size) && Allocates(c, ps, size, a, ps')
    ensures ps == [] ==> c.base + AlignUp(AlignUp(size, c.blockAlign), c.pageAlign) < U64
  {
    hide AlignUp, NoFit, Search, Search64, TakenFrom, TakenNew;
  }

  lemma ReservesBounded(c: Config, ps: Pages, a: nat, size: nat, ps': Pages)
    requires c.Ok() && Bounded(ps) && Reserves(c, ps, a, size, ps')
    ensures Bounded(ps')
  {
    hide AlignUp, Apart;
    var s := AlignUp(size, c.pageAlign);
    var k: nat :| PlacedAt(ps, a, s, k) && ps' == InsertAt(ps, k, PageV(a, s, map[a := s]));
    var q := PageV(a, s, map[a := s]);
    assert forall j | 0 <= j < |ps'| :: ps'[j] == if j < k then ps[j] else if j == k then q else ps[j - 1];
  }

  lemma {:induction false} RunKeeps(c: Config, states: seq<Pages>, ops: seq<Op>, k: nat)
    requires c.Ok() && IsRun(c, states, ops) && k < |states|
    ensures StateOk(c, states[k])
  {
    hide StateOk, Does, Modest;
    if k == 0 {
      EmptyOk(c);
    } else {
      RunKeeps(c, states, ops, k - 1);
      StepKeeps(c, states[k - 1], ops[k - 1], states[k]);
    }
  }

  lemma EmptyOk(c: Config)
    ensures StateOk(c, []) && Within(c, [])
  {
  }

  /** When the requests that meet an empty allocator are modest, every state of a run stays inside the capacity,
    and the bytes in use never exceed it. */
  lemma {:induction false} RunWithin(c: Config, states: seq<Pages>, ops: seq<Op>, k: nat)
    requires c.Ok() && IsRun(c, states, ops) && k < |states|
    requires forall j | 0 <= j < k && states[j] == [] :: Modest(c, ops[j])
    ensures Within(c, states[k]) && Total(states[k]) <= c.capacity
  {
    hide PagesOk, Above, Bounded, Within, Does, Modest;
    RunKeeps(c, states, ops, k);
    if k == 0 {
      EmptyOk(c);
    } else {
      RunWithin(c, states, ops, k - 1);
      RunKeeps(c, states, ops, k - 1);
      StepKeeps(c, states[k - 1], ops[k - 1], states[k]);
    }
    TotalWithin(c, states[k]);
  }

  lemma OkNonEmpty(c: Config, ps: Pages)
    requires PagesOk(c, ps)
    ensures NonEmpty(ps)
  {
    forall i | 0 <= i < |ps| ensures ps[i].used != map[] {
      assert PageOk(c, ps[i]);
    }
  }

  /** Releasing every block of a reachable state, in any order, leaves no page and no byte in use. */
  lemma ReleaseEverything(c: Config, states: seq<Pages>, ops: seq<Op>, k: nat, xs: seq<nat>)
    requires c.Ok() && IsRun(c, states, ops) && k < |states| && Frames(states[k]) <= Elements(xs)
    ensures ReleaseAll(states[k], xs) == [] && Total([]) == 0
  {
    hide PagesOk, Above, Does;
    RunKeeps(c, states, ops, k);
    OkNonEmpty(c, states[k]);
    ReleaseOrder(states[k], xs);
    WithoutAll(states[k], Elements(xs));
  }

  /** Consecutive allocations from ps on, with their addresses. */
  ghost predicate Allocations(c: Config, states: seq<Pages>, ops: seq<Op>)
    requires c.Ok()
  {
    |states| == |ops| + 1 && PagesOk(c, states[0]) && forall k | 0 <= k < |ops| :: ops[k].Alloc? && Does(c, states[k], ops[k], states[k + 1])
  }

  ghost function Addresses(ops: seq<Op>): set<nat> {
    if ops == [] then {} else Addresses(ops[..|ops| - 1]) + {ops[|ops| - 1].a}
  }

  lemma {:induction false} AllocationsUndone(c: Config, states: seq<Pages>, ops: seq<Op>)
    requires c.Ok() && Allocations(c, states, ops)
    ensures PagesOk(c, states[|ops|]) && Without(states[|ops|], Addresses(ops)) == states[0]
    decreases |ops|
  {
    hide PagesOk, Above, Allocates, Without;
    if ops == [] {
      OkNonEmpty(c, states[0]);
      WithoutNone(states[0], {});
    } else {
      var n := |ops| - 1;
      AllocationsUndone(c, states[..n + 1], ops[..n]);
      AllocateKeeps(c, states[n], ops[n].size, ops[n].a, states[n + 1]);
      WithoutTwice(states[n + 1], {ops[n].a}, Addresses(ops[..n]));
      assert {ops[n].a} + Addresses(ops[..n]) == Addresses(ops);
    }
  }

  /** Any number of allocations is undone by releasing their addresses in any order:
    pages, used blocks and free blocks are what they were. */
  lemma AllocateThenRelease(c: Config, states: seq<Pages>, ops: seq<Op>, xs: seq<nat>)
    requires c.Ok() && Allocations(c, states, ops) && Elements(xs) == Addresses(ops)
    ensures ReleaseAll(states[|ops|], xs) == states[0]
  {
    hide PagesOk, Does;
    AllocationsUndone(c, states, ops);
    OkNonEmpty(c, states[|ops|]);
    ReleaseOrder(states[|ops|], xs);
  }
}
