/** Ownership of frames by page tables, as values, and what each step on them keeps. */
module PageTables {
  import opened Base
  import opened Bits
  import opened Memory
  import opened Sv32
  import opened Translation
  import opened Holes

  /** What a frame is used for: the root of a page table, the node under entry i of a root,
    or the page mapped by entry j of a node. */
  datatype Role = Root | Node(root: nat, i: nat) | Leaf(node: nat, j: nat)

  /** The allocator hands out frames of [lo, hi); holes maps a start address to a size. */
  datatype Layout = Layout(lo: nat, hi: nat, holes: map<nat, nat>)

  /** A frame that is released with the page table that maps it. */
  predicate Counted(l: Layout, pa: nat) {
    l.lo <= pa < l.hi && !InHole(l.holes, pa)
  }

  /** Scratchpad memory, the frames in use in the allocator, and the roles of the owned ones. */
  datatype Space = Space(mem: Mem, used: set<nat>, own: map<nat, Role>)

  ghost predicate FramesOk(l: Layout, s: Space) {
    && (forall f <- s.used :: IsFrame(f) && 0 < f && l.lo <= f < l.hi)
    && s.own.Keys <= s.used
    && (forall f <- s.own :: IsFrame(f) && !InHole(l.holes, f))
  }

  ghost predicate RoleOk(s: Space, f: nat)
    requires f in s.own
  {
    match s.own[f]
    case Root => true
    case Node(r, i) =>
      r in s.own && s.own[r].Root? && IsFrame(r) && IsFrame(f) && i < PTES && Pte(s.mem, r, i) == MakePte(f, V)
    case Leaf(n, j) =>
      && n in s.own && s.own[n].Node? && IsFrame(n) && j < PTES
      && PteValid(Pte(s.mem, n, j)) && PtePa(Pte(s.mem, n, j)) == f
  }

  ghost predicate Pointer(s: Space, r: nat, i: nat, pte: nat)
    requires pte < U32
  {
    !PteIsLeaf(pte) && PtePa(pte) in s.own && s.own[PtePa(pte)] == Node(r, i)
  }

  /** The address of the page under entry j of the node under entry i. */
  function PageVa(i: nat, j: nat): nat {
    (i * 1024 + j) * PAGE_SIZE
  }

  ghost predicate Mapping(l: Layout, s: Space, n: nat, j: nat, pte: nat)
    requires pte < U32 && n in s.own && s.own[n].Node?
  {
    && PteReadable(pte) && SmallPpn(pte) && (Counted(l, PtePa(pte)) ==> PtePa(pte) in s.own && s.own[PtePa(pte)] == Leaf(n, j))
    && (!Counted(l, PtePa(pte)) ==> PtePa(pte) == PageVa(s.own[n].i, j))
  }

  /** A valid entry of a root points to the node that it owns. */
  ghost predicate RootEntry(s: Space, r: nat, i: nat)
    requires IsFrame(r) && i < PTES
  {
    PteValid(Pte(s.mem, r, i)) ==> Pointer(s, r, i, Pte(s.mem, r, i))
  }

  /** A valid entry of a node is a readable leaf with an address of 32 bits. It owns its page when that page is counted, and maps it to itself otherwise. */
  ghost predicate NodeEntry(l: Layout, s: Space, n: nat, j: nat)
    requires IsFrame(n) && j < PTES && n in s.own && s.own[n].Node?
  {
    PteValid(Pte(s.mem, n, j)) ==> Mapping(l, s, n, j, Pte(s.mem, n, j))
  }

  ghost predicate RolesOk(s: Space) {
    forall f <- s.own :: RoleOk(s, f)
  }

  ghost predicate EntriesOk(l: Layout, s: Space) {
    && (forall r, i | r in s.own && s.own[r].Root? && 0 <= i < PTES && IsFrame(r) :: RootEntry(s, r, i))
    && (forall n, j | n in s.own && s.own[n].Node? && 0 <= j < PTES && IsFrame(n) :: NodeEntry(l, s, n, j))
  }

  ghost predicate Inv(l: Layout, s: Space) {
    FramesOk(l, s) && RolesOk(s) && EntriesOk(l, s)
  }

  // ---- memory updates, entry by entry ----

  function Zeros(): (z: seq<byte>)
    ensures |z| == PAGE_SIZE && AllZero(z)
  {
    seq(PAGE_SIZE, _ => 0 as byte)
  }

  ghost function ZeroPage(m: Mem, n: nat): Mem
    requires IsFrame(n)
  {
    Written(m, n, Zeros())
  }

  ghost function SetPte(m: Mem, n: nat, i: nat, pte: nat): Mem
    requires IsFrame(n) && i < PTES && pte < U32
  {
    Written(m, n + i * PTE_SIZE, Encode(pte))
  }

  lemma PteZeroed(m: Mem, n: nat, p: nat, k: nat)
    requires IsFrame(n) && IsFrame(p) && k < PTES
    ensures Pte(ZeroPage(m, n), p, k) == if p == n then 0 else Pte(m, p, k)
  {
    hide Word, Written;
    if p == n {
      WordZeroed(m, n, Zeros(), p + k * PTE_SIZE);
    } else {
      FramesApart(n, p);
      WordElsewhere(m, n, Zeros(), p + k * PTE_SIZE);
    }
  }

  lemma FramesApart(n: nat, p: nat)
    requires n % PAGE_SIZE == 0 && p % PAGE_SIZE == 0 && n != p
    ensures n + PAGE_SIZE <= p || p + PAGE_SIZE <= n
  {
  }

  lemma PteSet(m: Mem, n: nat, i: nat, pte: nat, p: nat, k: nat)
    requires IsFrame(n) && i < PTES && pte < U32 && IsFrame(p) && k < PTES
    ensures Pte(SetPte(m, n, i, pte), p, k) == if p == n && k == i then pte else Pte(m, p, k)
  {
    hide Word, Written, Encode, Decode;
    if p == n && k == i {
      WordWritten(m, n + i * PTE_SIZE, pte);
    } else {
      if p != n {
        FramesApart(n, p);
      }
      WordElsewhere(m, n + i * PTE_SIZE, Encode(pte), p + k * PTE_SIZE);
    }
  }

  lemma PteZeroedAll(m: Mem, n: nat)
    requires IsFrame(n)
    ensures forall p, k | IsFrame(p) && 0 <= k < PTES :: Pte(ZeroPage(m, n), p, k) == if p == n then 0 else Pte(m, p, k)
  {
    forall p: nat, k: nat | IsFrame(p) && 0 <= k < PTES ensures Pte(ZeroPage(m, n), p, k) == if p == n then 0 else Pte(m, p, k) {
      PteZeroed(m, n, p, k);
    }
  }

  lemma PteSetAll(m: Mem, n: nat, i: nat, pte: nat)
    requires IsFrame(n) && i < PTES && pte < U32
    ensures forall p, k | IsFrame(p) && 0 <= k < PTES ::
      Pte(SetPte(m, n, i, pte), p, k) == if p == n && k == i then pte else Pte(m, p, k)
  {
    forall p: nat, k: nat | IsFrame(p) && 0 <= k < PTES
      ensures Pte(SetPte(m, n, i, pte), p, k) == if p == n && k == i then pte else Pte(m, p, k)
    {
      PteSet(m, n, i, pte, p, k);
    }
  }

  // ---- the steps on page tables ----

  /** A frame just taken from the allocator: in use, with no role yet. */
  ghost predicate Fresh(l: Layout, s: Space, f: nat) {
    f in s.used && f !in s.own && IsFrame(f) && 0 < f && !InHole(l.holes, f)
  }

  ghost function NewRoot(s: Space, f: nat): Space
    requires IsFrame(f)
  {
    Space(ZeroPage(s.mem, f), s.used, s.own[f := Root])
  }

  ghost function NewNode(s: Space, r: nat, i: nat, f: nat): Space
    requires IsFrame(f) && IsFrame(r) && i < PTES
  {
    Space(SetPte(ZeroPage(s.mem, f), r, i, MakePte(f, V)), s.used, s.own[f := Node(r, i)])
  }

  ghost function NewLeaf(l: Layout, s: Space, n: nat, j: nat, pte: nat): Space
    requires IsFrame(n) && j < PTES && pte < U32
  {
    var own := if Counted(l, PtePa(pte)) then s.own[PtePa(pte) := Leaf(n, j)] else s.own;
    Space(SetPte(s.mem, n, j, pte), s.used, own)
  }

  lemma PointerPte(f: nat)
    requires IsFrame(f)
    ensures var p := MakePte(f, V); PteValid(p) && !PteIsLeaf(p) && !PteReadable(p) && !PteWritable(p) && PtePa(p) == f
  {
    hide And, Or, Pow2, MakePte, PtePa, PteValid, PteIsLeaf, PteReadable, PteWritable;
    PteRoundTrip(f, V, 0);
    PteRoundTrip(f, V, 1);
    PteRoundTrip(f, V, 2);
    PteRoundTrip(f, V, 3);
    BitValues(V);
  }

  lemma FrameBound(f: nat)
    requires IsFrame(f)
    ensures f < U32
  {
  }

  /** Entries of a zeroed page are not valid. */
  lemma ZeroPte()
    ensures !PteValid(0)
  {
    ZeroBits(0);
  }

  lemma NewRootInv(l: Layout, s: Space, f: nat)
    requires Inv(l, s) && Fresh(l, s, f)
    ensures Inv(l, NewRoot(s, f))
  {
    hide Pte, ZeroPage, PteValid, PteReadable, PteIsLeaf, PtePa, MakePte, InHole, IsFrame;
    PteZeroedAll(s.mem, f);
    ZeroPte();
    var t := NewRoot(s, f);
    assert FramesOk(l, t);
    forall g <- t.own ensures RoleOk(t, g) {
      if g != f {
        assert RoleOk(s, g);
      }
    }
    forall r, i | r in t.own && t.own[r].Root? && 0 <= i < PTES && IsFrame(r) ensures RootEntry(t, r, i) {
      if r != f {
        assert RootEntry(s, r, i);
      }
    }
    forall n, j | n in t.own && t.own[n].Node? && 0 <= j < PTES && IsFrame(n) ensures NodeEntry(l, t, n, j) {
      assert NodeEntry(l, s, n, j);
    }
  }

  /** Inserting a fresh node under an invalid entry of a root. */
  lemma NewNodeInv(l: Layout, s: Space, r: nat, i: nat, f: nat)
    requires Inv(l, s) && Fresh(l, s, f) && r in s.own && s.own[r].Root? && IsFrame(r) && i < PTES
    requires !PteValid(Pte(s.mem, r, i))
    ensures Inv(l, NewNode(s, r, i, f))
  {
    hide Pte, ZeroPage, SetPte, PteValid, PteReadable, PteIsLeaf, PtePa, MakePte, InHole, IsFrame;
    FrameBound(f);
    PteZeroedAll(s.mem, f);
    PteSetAll(ZeroPage(s.mem, f), r, i, MakePte(f, V));
    PointerPte(f);
    ZeroPte();
    var t := NewNode(s, r, i, f);
    forall g <- t.own ensures RoleOk(t, g) {
      if g != f {
        assert RoleOk(s, g);
        if s.own[g] == Node(r, i) {
          PointerPte(g);
        }
      }
    }
    forall q, k | q in t.own && t.own[q].Root? && 0 <= k < PTES && IsFrame(q) ensures RootEntry(t, q, k) {
      assert RootEntry(s, q, k);
    }
    forall n, j | n in t.own && t.own[n].Node? && 0 <= j < PTES && IsFrame(n) ensures NodeEntry(l, t, n, j) {
      if n != f {
        assert NodeEntry(l, s, n, j);
      }
    }
  }

  /** Writing a readable leaf over an invalid entry of a node; a counted page must be fresh, another one mapped to itself. */
  lemma NewLeafInv(l: Layout, s: Space, n: nat, j: nat, pte: nat)
    requires Inv(l, s) && n in s.own && s.own[n].Node? && IsFrame(n) && j < PTES
    requires !PteValid(Pte(s.mem, n, j)) && pte < U32 && PteValid(pte) && PteReadable(pte) && SmallPpn(pte)
    requires if Counted(l, PtePa(pte)) then Fresh(l, s, PtePa(pte)) else PtePa(pte) == PageVa(s.own[n].i, j)
    ensures Inv(l, NewLeaf(l, s, n, j, pte))
  {
    hide Pte, ZeroPage, SetPte, PteValid, PteReadable, PteIsLeaf, PtePa, MakePte, InHole, IsFrame, Counted;
    PteSetAll(s.mem, n, j, pte);
    var t, f := NewLeaf(l, s, n, j, pte), PtePa(pte);
    forall g <- t.own ensures RoleOk(t, g) {
      if g in s.own {
        assert RoleOk(s, g);
      }
    }
    forall q, k | q in t.own && t.own[q].Root? && 0 <= k < PTES && IsFrame(q) ensures RootEntry(t, q, k) {
      assert RootEntry(s, q, k);
    }
    forall p, k | p in t.own && t.own[p].Node? && 0 <= k < PTES && IsFrame(p) ensures NodeEntry(l, t, p, k) {
      assert NodeEntry(l, s, p, k);
    }
  }

  ghost function Take(s: Space, F: set<nat>): Space {
    s.(used := s.used + F)
  }

  lemma TakeInv(l: Layout, s: Space, F: set<nat>)
    requires Inv(l, s) && forall f <- F :: IsFrame(f) && 0 < f && l.lo <= f < l.hi
    ensures Inv(l, Take(s, F))
  {
    hide Pte, PteValid, PteReadable, PteIsLeaf, PtePa, MakePte, InHole, IsFrame, Counted;
    var t := Take(s, F);
    forall g <- t.own ensures RoleOk(t, g) {
      assert RoleOk(s, g);
    }
    forall q, k | q in t.own && t.own[q].Root? && 0 <= k < PTES && IsFrame(q) ensures RootEntry(t, q, k) {
      assert RootEntry(s, q, k);
    }
    forall p, k | p in t.own && t.own[p].Node? && 0 <= k < PTES && IsFrame(p) ensures NodeEntry(l, t, p, k) {
      assert NodeEntry(l, s, p, k);
    }
  }

  /** Frame f is a node or a page reached from table p through an entry below i. */
  ghost predicate Beneath(own: map<nat, Role>, f: nat, p: nat, i: nat) {
    f in own &&
    match own[f]
    case Root => false
    case Node(r, k) => r == p && k < i
    case Leaf(n, k) => (n == p && k < i) || (n in own && own[n].Node? && own[n].root == p && own[n].i < i)
  }

  /** The frames reached from table p through the entries below i. */
  ghost function Reached(own: map<nat, Role>, p: nat, i: nat): set<nat> {
    set f | f in own && Beneath(own, f, p, i)
  }

  /** All frames of the page table of r: the root, its nodes and the pages they own. */
  ghost function Family(own: map<nat, Role>, r: nat): set<nat> {
    {r} + Reached(own, r, PTES)
  }

  ghost function DropRoot(s: Space, r: nat): Space {
    Space(s.mem, s.used - Family(s.own, r), s.own - Family(s.own, r))
  }

  lemma DropRootInv(l: Layout, s: Space, r: nat)
    requires Inv(l, s) && r in s.own && s.own[r].Root?
    ensures Inv(l, DropRoot(s, r))
  {
    hide Pte, PteValid, PteReadable, PteIsLeaf, PtePa, MakePte, InHole, IsFrame, Counted;
    var t := DropRoot(s, r);
    forall g <- t.own ensures RoleOk(t, g) {
      assert RoleOk(s, g);
    }
    forall q, k | q in t.own && t.own[q].Root? && 0 <= k < PTES && IsFrame(q) ensures RootEntry(t, q, k) {
      assert RootEntry(s, q, k);
    }
    forall p, k | p in t.own && t.own[p].Node? && 0 <= k < PTES && IsFrame(p) ensures NodeEntry(l, t, p, k) {
      assert NodeEntry(l, s, p, k);
    }
  }

  // ---- what the steps do to translations ----

  /** The valid leaf entry that the table of root r holds for a page, if any. */
  ghost function LeafPte(m: Mem, r: nat, i: nat, j: nat): Option<nat>
    requires IsFrame(r) && i < PTES && j < PTES
  {
    var top := Pte(m, r, i);
    if !PteValid(top) then None else
      FrameOf(top);
      var leaf := Pte(m, PtePa(top), j);
      if PteValid(leaf) then Some(leaf) else None
  }

  /** Under the invariant a walk is a lookup: two valid entries give an address, anything else a fault. */
  lemma WalkIsLookup(l: Layout, s: Space, r: nat, va: nat)
    requires Inv(l, s) && r in s.own && s.own[r].Root? && IsFrame(r) && va < U32
    ensures Walk(s.mem, r, va) ==
      match LeafPte(s.mem, r, VaVpn(va, 1), VaVpn(va, 0))
      case Some(leaf) => Pa(PagePa(leaf, va))
      case None => Fault(NotValid)
  {
    hide Pte, PteValid, PteReadable, PteWritable, PteIsLeaf, PtePa, MakePte, InHole, VaVpn, PagePa, Counted,
      Misaligned, SuperpagePa;
    var i, j := VaVpn(va, 1), VaVpn(va, 0);
    var top := Pte(s.mem, r, i);
    assert RootEntry(s, r, i);
    if PteValid(top) {
      var n := PtePa(top);
      assert RoleOk(s, n);
      PointerPte(n);
      FrameOf(top);
      assert NodeEntry(l, s, n, j);
      ReadableIsLeaf(Pte(s.mem, n, j));
    }
  }

  lemma ReadableIsLeaf(pte: nat)
    ensures PteReadable(pte) ==> PteIsLeaf(pte)
  {
    hide Bit, And, Or;
  }

  ghost predicate IsRoot(s: Space, r: nat) {
    r in s.own && s.own[r].Root? && IsFrame(r)
  }

  /** Node n stands under entry i of root r. */
  ghost predicate Under(s: Space, r: nat, i: nat, n: nat) {
    IsRoot(s, r) && i < PTES && n in s.own && s.own[n] == Node(r, i) && IsFrame(n)
  }

  /** A fresh node changes no translation of any root. */
  lemma NewNodeKeeps(l: Layout, s: Space, r: nat, i: nat, f: nat, q: nat, k: nat, j: nat)
    requires Inv(l, s) && Fresh(l, s, f) && IsRoot(s, r) && i < PTES && !PteValid(Pte(s.mem, r, i))
    requires IsRoot(s, q) && k < PTES && j < PTES
    ensures LeafPte(NewNode(s, r, i, f).mem, q, k, j) == LeafPte(s.mem, q, k, j)
  {
    hide Pte, ZeroPage, SetPte, PteValid, PteReadable, PteIsLeaf, PtePa, MakePte, InHole, IsFrame;
    FrameBound(f);
    PteZeroedAll(s.mem, f);
    PteSetAll(ZeroPage(s.mem, f), r, i, MakePte(f, V));
    PointerPte(f);
    ZeroPte();
    assert RootEntry(s, q, k);
    FrameOf(Pte(s.mem, q, k));
  }

  /** A new leaf changes the translation of one page of one root. */
  lemma NewLeafMaps(l: Layout, s: Space, r: nat, i: nat, n: nat, j: nat, pte: nat, q: nat, k: nat, h: nat)
    requires Inv(l, s) && Under(s, r, i, n) && j < PTES && pte < U32 && PteValid(pte)
    requires IsRoot(s, q) && k < PTES && h < PTES
    ensures LeafPte(NewLeaf(l, s, n, j, pte).mem, q, k, h) ==
      if q == r && k == i && h == j then Some(pte) else LeafPte(s.mem, q, k, h)
  {
    hide Pte, SetPte, PteValid, PteReadable, PteIsLeaf, PtePa, MakePte, InHole, IsFrame, Counted;
    PteSetAll(s.mem, n, j, pte);
    assert RoleOk(s, n);
    PointerPte(n);
    assert RootEntry(s, q, k);
    FrameOf(Pte(s.mem, q, k));
  }

  /** A new root maps nothing and changes no translation of the other roots. */
  lemma NewRootKeeps(l: Layout, s: Space, f: nat, q: nat, k: nat, j: nat)
    requires Inv(l, s) && Fresh(l, s, f) && k < PTES && j < PTES && (q == f || IsRoot(s, q))
    ensures LeafPte(NewRoot(s, f).mem, q, k, j) == if q == f then None else LeafPte(s.mem, q, k, j)
  {
    hide Pte, ZeroPage, PteValid, PteReadable, PteIsLeaf, PtePa, MakePte, InHole, IsFrame;
    PteZeroedAll(s.mem, f);
    ZeroPte();
    if q != f {
      assert RootEntry(s, q, k);
      FrameOf(Pte(s.mem, q, k));
    }
  }

  /** The node under a valid entry of a root. */
  lemma ExistingNode(l: Layout, s: Space, r: nat, i: nat)
    requires Inv(l, s) && IsRoot(s, r) && i < PTES && PteValid(Pte(s.mem, r, i))
    ensures Under(s, r, i, PtePa(Pte(s.mem, r, i)))
  {
    hide Pte, PteValid, PteReadable, PteIsLeaf, PtePa, MakePte, InHole, Counted;
    assert RootEntry(s, r, i);
    FrameOf(Pte(s.mem, r, i));
  }

  lemma FreshNodeUnder(s: Space, r: nat, i: nat, f: nat)
    requires IsFrame(f) && IsRoot(s, r) && i < PTES && f !in s.own
    ensures Under(NewNode(s, r, i, f), r, i, f)
  {
    hide IsFrame;
  }

  /** How s becomes s' when a walk for a mapping makes sure that root r has a node under entry i. */
  ghost predicate Descends(l: Layout, s: Space, s': Space, r: nat, i: nat, taken: set<nat>)
    requires IsRoot(s, r) && i < PTES
  {
    if PteValid(Pte(s.mem, r, i)) then s' == s && taken == {}
    else exists f :: f in taken && Fresh(l, Take(s, taken), f) && s' == NewNode(Take(s, taken), r, i, f)
  }

  /** Descending keeps every translation of every root, and all roots. */
  lemma DescendsKeeps(l: Layout, s: Space, s': Space, r: nat, i: nat, taken: set<nat>, q: nat, k: nat, j: nat)
    requires Inv(l, s) && IsRoot(s, r) && i < PTES && Descends(l, s, s', r, i, taken)
    requires taken !! s.used && forall f <- taken :: IsFrame(f) && 0 < f && l.lo <= f < l.hi
    requires IsRoot(s, q) && k < PTES && j < PTES
    ensures IsRoot(s', q) && LeafPte(s'.mem, q, k, j) == LeafPte(s.mem, q, k, j)
  {
    hide Inv, InHole, Pte, PteValid, IsFrame, LeafPte;
    if !PteValid(Pte(s.mem, r, i)) {
      var f :| f in taken && Fresh(l, Take(s, taken), f) && s' == NewNode(Take(s, taken), r, i, f);
      TakeInv(l, s, taken);
      NewNodeKeeps(l, Take(s, taken), r, i, f, q, k, j);
    }
  }

  lemma NewNodeIs(l: Layout, s: Space, r: nat, i: nat, f: nat)
    requires Fresh(l, s, f) && IsRoot(s, r) && i < PTES
    ensures IsFrame(f) && f + PAGE_SIZE <= U32 && PtePa(MakePte(f, V)) == f && Under(NewNode(s, r, i, f), r, i, f)
    ensures NewNode(s, r, i, f) ==
      Space(SetPte(Written(s.mem, f, Zeros()), r, i, MakePte(f, V)), s.used, s.own[f := Node(r, i)])
  {
    hide MakePte, PtePa, SetPte, Written, PteValid, PteIsLeaf, PteReadable, PteWritable;
    PointerPte(f);
  }

  lemma DescendsNew(l: Layout, s: Space, r: nat, i: nat, taken: set<nat>, f: nat)
    requires IsRoot(s, r) && i < PTES && !PteValid(Pte(s.mem, r, i))
    requires f in taken && Fresh(l, Take(s, taken), f) && IsFrame(f)
    ensures Descends(l, s, NewNode(Take(s, taken), r, i, f), r, i, taken)
  {
    hide Fresh, IsFrame, Pte, PteValid, NewNode;
  }

  lemma DescendsOld(l: Layout, s: Space, r: nat, i: nat)
    requires IsRoot(s, r) && i < PTES && PteValid(Pte(s.mem, r, i))
    ensures Descends(l, s, s, r, i, {})
  {
    hide IsFrame, Pte, PteValid;
  }

  // ---- mapping a page ----

  /** The entry written for a mapping to pa. */
  function LeafEntry(pa: nat, flags: nat): (pte: nat)
    requires pa < U32
    ensures pte < U32
  {
    MakePte(pa, LeafFlags(flags))
  }

  lemma LeafEntryIs(pa: nat, flags: nat)
    requires pa < U32 && Bit(flags, 1)
    ensures var pte := LeafEntry(pa, flags); PteValid(pte) && PteReadable(pte) && PtePa(pte) == pa - pa % PAGE_SIZE
  {
    hide PtePa, LeafEntry, PteValid, PteReadable, Bit;
    EntryFlags(pa, flags);
  }

  /** The entry has the whole page number, the requested flags, and V, A and D. */
  lemma EntryFlags(pa: nat, flags: nat)
    requires pa < U32
    ensures var pte := LeafEntry(pa, flags); PtePa(pte) == pa - pa % PAGE_SIZE && pte / 1024 == pa / PAGE_SIZE && HasFlags(pte, flags)
  {
    hide PtePa, Bit, And, Or, Shl32, Pow2;
    var pte := LeafEntry(pa, flags);
    forall i | 0 <= i < 10 ensures Bit(pte, i) <==> Bit(flags, i) || i == 0 || i == 6 || i == 7 {
      PteRoundTrip(pa, LeafFlags(flags), i);
    }
    PteRoundTrip(pa, LeafFlags(flags), 0);
    DivModUnique(pte, 1024, pa / PAGE_SIZE, LeafFlags(flags) % 1024);
  }

  lemma SmallEntry(pa: nat, flags: nat)
    requires pa < U32
    ensures SmallPpn(LeafEntry(pa, flags))
  {
    hide LeafEntry, PtePa, HasFlags;
    EntryFlags(pa, flags);
  }

  /** The page of va may be mapped to the page of pa: a frame that is counted and that nothing else uses yet, or itself. */
  ghost predicate Mappable(l: Layout, s: Space, va: nat, pa: nat)
    requires pa < U32
  {
    var f := pa - pa % PAGE_SIZE;
    if Counted(l, f) then Fresh(l, s, f) else f == va - va % PAGE_SIZE
  }

  /** A successful mapping of va in root r leads from s to s'. */
  ghost predicate Maps(l: Layout, s: Space, s': Space, r: nat, va: nat, pte: nat, taken: set<nat>)
    requires IsRoot(s, r) && va < U32 && pte < U32
  {
    var i, j := VaVpn(va, 1), VaVpn(va, 0);
    exists s1: Space, n ::
      Descends(l, s, s1, r, i, taken) && Under(s1, r, i, n) && !PteValid(Pte(s1.mem, n, j)) && s' == NewLeaf(l, s1, n, j, pte)
  }

  /** The entry of a leaf is written, and its page gets no role. */
  ghost function WriteLeaf(s: Space, n: nat, j: nat, pte: nat): Space
    requires IsFrame(n) && j < PTES && pte < U32
  {
    s.(mem := SetPte(s.mem, n, j, pte))
  }

  /** As Maps, when va must not be mapped to the page of the entry. */
  ghost predicate MapsAnyway(l: Layout, s: Space, s': Space, r: nat, va: nat, pte: nat, taken: set<nat>)
    requires IsRoot(s, r) && va < U32 && pte < U32
  {
    var i, j := VaVpn(va, 1), VaVpn(va, 0);
    exists s1: Space, n ::
      Descends(l, s, s1, r, i, taken) && Under(s1, r, i, n) && !PteValid(Pte(s1.mem, n, j)) && s' == WriteLeaf(s1, n, j, pte)
  }

  lemma LeafUnder(l: Layout, s: Space, r: nat, i: nat, n: nat, j: nat)
    requires Inv(l, s) && Under(s, r, i, n) && j < PTES
    ensures LeafPte(s.mem, r, i, j) == if PteValid(Pte(s.mem, n, j)) then Some(Pte(s.mem, n, j)) else None
  {
    hide Pte, PteValid, PteIsLeaf, PteReadable, PteWritable, PtePa, MakePte, InHole;
    assert RoleOk(s, n);
    PointerPte(n);
  }

  /** Nothing new was inserted on the way to an entry that is already valid. */
  lemma AlreadyThere(l: Layout, s: Space, s1: Space, r: nat, i: nat, taken: set<nat>, n: nat, j: nat)
    requires Inv(l, s) && IsRoot(s, r) && i < PTES && j < PTES && Descends(l, s, s1, r, i, taken)
    requires Inv(l, s1) && Under(s1, r, i, n) && PteValid(Pte(s1.mem, n, j))
    ensures s1 == s && taken == {} && LeafPte(s.mem, r, i, j).Some?
  {
    hide Inv, InHole, Pte, PteValid, LeafPte, PtePa, MakePte, PteIsLeaf, PteReadable, PteWritable;
    LeafUnder(l, s1, r, i, n, j);
    if !PteValid(Pte(s.mem, r, i)) {
      var f :| f in taken && Fresh(l, Take(s, taken), f) && s1 == NewNode(Take(s, taken), r, i, f);
      FreshNodeUnder(Take(s, taken), r, i, f);
      SameNode(l, s1, r, i, n, f);
      FreshNodeEmpty(Take(s, taken), r, i, f, j);
    }
  }

  lemma SameNode(l: Layout, s: Space, r: nat, i: nat, n: nat, f: nat)
    requires Inv(l, s) && Under(s, r, i, n) && Under(s, r, i, f)
    ensures n == f
  {
    hide Pte, PteValid, PtePa, MakePte, PteIsLeaf, PteReadable, PteWritable, InHole;
    assert RoleOk(s, n) && RoleOk(s, f);
    PointerPte(n);
    PointerPte(f);
  }

  lemma FreshNodeEmpty(s: Space, r: nat, i: nat, f: nat, j: nat)
    requires IsRoot(s, r) && i < PTES && j < PTES && IsFrame(f) && f !in s.own
    ensures !PteValid(Pte(NewNode(s, r, i, f).mem, f, j))
  {
    hide Pte, PteValid, MakePte, SetPte, ZeroPage;
    PteZeroed(s.mem, f, f, j);
    PteSet(ZeroPage(s.mem, f), r, i, MakePte(f, V), f, j);
    ZeroPte();
  }

  /** The frames taken on the way to a mapping are new, and inside the allocator's range. */
  ghost predicate TakenOk(l: Layout, s: Space, taken: set<nat>) {
    taken !! s.used && forall f <- taken :: IsFrame(f) && 0 < f && l.lo <= f < l.hi
  }

  lemma DescendsInv(l: Layout, s: Space, s1: Space, r: nat, i: nat, taken: set<nat>, va: nat, pa: nat)
    requires Inv(l, s) && IsRoot(s, r) && i < PTES && Descends(l, s, s1, r, i, taken) && TakenOk(l, s, taken)
    requires pa < U32
    ensures Inv(l, s1) && (Mappable(l, s, va, pa) ==> Mappable(l, s1, va, pa))
  {
    hide Inv, InHole, Pte, PteValid, LeafPte, Counted, IsFrame, SetPte, ZeroPage, MakePte;
    if !PteValid(Pte(s.mem, r, i)) {
      var f :| f in taken && Fresh(l, Take(s, taken), f) && s1 == NewNode(Take(s, taken), r, i, f);
      TakeInv(l, s, taken);
      NewNodeInv(l, Take(s, taken), r, i, f);
    }
  }

  /** A successful mapping changes the translation of one page of one root, and no other translation of any root. */
  lemma MapsOnePage(l: Layout, s: Space, s': Space, r: nat, va: nat, pa: nat, flags: nat, taken: set<nat>, q: nat, k: nat, h: nat)
    requires Inv(l, s) && IsRoot(s, r) && va < U32 && pa < U32 && Bit(flags, 1) && Mappable(l, s, va, pa) && TakenOk(l, s, taken)
    requires Maps(l, s, s', r, va, LeafEntry(pa, flags), taken)
    requires IsRoot(s, q) && k < PTES && h < PTES
    ensures Inv(l, s') && IsRoot(s', q)
    ensures LeafPte(s'.mem, q, k, h) ==
      if q == r && k == VaVpn(va, 1) && h == VaVpn(va, 0) then Some(LeafEntry(pa, flags)) else LeafPte(s.mem, q, k, h)
  {
    hide Inv, InHole, Pte, PteValid, PteReadable, PtePa, LeafPte, Counted, IsFrame, SetPte, LeafEntry, Descends, VaVpn,
      Bit, TakenOk,
      NewLeaf, Fresh;
    var i, j, pte := VaVpn(va, 1), VaVpn(va, 0), LeafEntry(pa, flags);
    var s1: Space, n :|
      Descends(l, s, s1, r, i, taken) && Under(s1, r, i, n) && !PteValid(Pte(s1.mem, n, j)) && s' == NewLeaf(l, s1, n, j, pte);
    LeafEntryIs(pa, flags);
    DescendsInv(l, s, s1, r, i, taken, va, pa);
    DescendsLookup(l, s, s1, r, i, taken, q, k, h);
    MapLeafInv(l, s1, r, n, va, pa, flags);
    NewLeafMaps(l, s1, r, i, n, j, pte, q, k, h);
    NewLeafRoots(l, s1, n, j, pte, q);
  }

  /** A page that is mapped now was not mapped before. */
  lemma MapsUnmapped(l: Layout, s: Space, s': Space, r: nat, va: nat, pte: nat, taken: set<nat>, pa: nat)
    requires Inv(l, s) && IsRoot(s, r) && va < U32 && pte < U32 && TakenOk(l, s, taken) && Maps(l, s, s', r, va, pte, taken)
    requires pa < U32 && Mappable(l, s, va, pa)
    ensures LeafPte(s.mem, r, VaVpn(va, 1), VaVpn(va, 0)) == None
  {
    hide Inv, InHole, Pte, PteValid, LeafPte, Counted, Descends, VaVpn, TakenOk, NewLeaf, Mappable;
    var i, j := VaVpn(va, 1), VaVpn(va, 0);
    var s1: Space, n :| Descends(l, s, s1, r, i, taken) && Under(s1, r, i, n) && !PteValid(Pte(s1.mem, n, j)) && s' == NewLeaf(l, s1, n, j, pte);
    DescendsInv(l, s, s1, r, i, taken, va, pa);
    DescendsLookup(l, s, s1, r, i, taken, r, i, j);
    LeafUnder(l, s1, r, i, n, j);
  }

  lemma DescendsLookup(l: Layout, s: Space, s1: Space, r: nat, i: nat, taken: set<nat>, q: nat, k: nat, j: nat)
    requires Inv(l, s) && IsRoot(s, r) && i < PTES && Descends(l, s, s1, r, i, taken) && TakenOk(l, s, taken)
    requires IsRoot(s, q) && k < PTES && j < PTES
    ensures IsRoot(s1, q) && LeafPte(s1.mem, q, k, j) == LeafPte(s.mem, q, k, j)
  {
    hide Inv, Descends, LeafPte, IsRoot, IsFrame;
    DescendsKeeps(l, s, s1, r, i, taken, q, k, j);
  }

  lemma MapLeafInv(l: Layout, s: Space, r: nat, n: nat, va: nat, pa: nat, flags: nat)
    requires Inv(l, s) && va < U32 && Under(s, r, VaVpn(va, 1), n) && !PteValid(Pte(s.mem, n, VaVpn(va, 0)))
    requires pa < U32 && Bit(flags, 1) && Mappable(l, s, va, pa)
    ensures Inv(l, NewLeaf(l, s, n, VaVpn(va, 0), LeafEntry(pa, flags)))
  {
    hide Inv, Bit, LeafEntry, Pte, PteValid, PteReadable, PtePa, Fresh, Counted, VaVpn;
    LeafEntryIs(pa, flags);
    SmallEntry(pa, flags);
    PageVaIs(va);
    NewLeafInv(l, s, n, VaVpn(va, 0), LeafEntry(pa, flags));
  }

  lemma PageVaIs(va: nat)
    requires va < U32
    ensures PageVa(VaVpn(va, 1), VaVpn(va, 0)) == va - va % PAGE_SIZE
  {
    hide VaVpn;
    VpnPage(va);
  }

  lemma NewLeafRoots(l: Layout, s: Space, n: nat, j: nat, pte: nat, q: nat)
    requires IsFrame(n) && j < PTES && pte < U32 && IsRoot(s, q) && (Counted(l, PtePa(pte)) ==> Fresh(l, s, PtePa(pte)))
    ensures IsRoot(NewLeaf(l, s, n, j, pte), q)
  {
    hide PtePa, Counted, InHole, SetPte;
  }

  lemma SamePage(x: nat, y: nat)
    requires x < U32 && y < U32
    ensures x / PAGE_SIZE == y / PAGE_SIZE <==> VaVpn(x, 1) == VaVpn(y, 1) && VaVpn(x, 0) == VaVpn(y, 0)
  {
    hide VaVpn;
    VpnPage(x);
    VpnPage(y);
  }

  lemma VpnPage(x: nat)
    requires x < U32
    ensures x / PAGE_SIZE == VaVpn(x, 1) * 1024 + VaVpn(x, 0)
  {
    hide VaVpn;
    SplitVa(x);
  }

  /** Mapping refines map update: afterwards the page of va in root r translates to the page of pa,
    and every other page of r and every page of every other root translates as before. */
  lemma MapRefinesUpdate(l: Layout, s: Space, s': Space, r: nat, va: nat, pa: nat, flags: nat, taken: set<nat>, q: nat, x: nat)
    requires Inv(l, s) && IsRoot(s, r) && va < U32 && pa < U32 && Bit(flags, 1) && Mappable(l, s, va, pa) && TakenOk(l, s, taken)
    requires Maps(l, s, s', r, va, LeafEntry(pa, flags), taken)
    requires IsRoot(s, q) && x < U32
    ensures Walk(s'.mem, q, x) ==
      if q == r && x / PAGE_SIZE == va / PAGE_SIZE then Pa(pa - pa % PAGE_SIZE + x % PAGE_SIZE) else Walk(s.mem, q, x)
  {
    hide Inv, LeafPte, LeafEntry, Maps, VaVpn, Bit, TakenOk, Mappable, PagePa, PtePa, PteValid, PteReadable, Walk;
    MapsOnePage(l, s, s', r, va, pa, flags, taken, q, VaVpn(x, 1), VaVpn(x, 0));
    WalkIsLookup(l, s, q, x);
    WalkIsLookup(l, s', q, x);
    SamePage(x, va);
    LeafEntryIs(pa, flags);
  }

  /** A frame that a page table counts as its own is mapped once, by one page of one root. */
  lemma CountedOnce(l: Layout, s: Space, r: nat, i: nat, j: nat, q: nat, k: nat, h: nat)
    requires Inv(l, s) && IsRoot(s, r) && IsRoot(s, q) && i < PTES && j < PTES && k < PTES && h < PTES
    requires LeafPte(s.mem, r, i, j).Some? && LeafPte(s.mem, q, k, h).Some?
    requires PtePa(LeafPte(s.mem, r, i, j).value) == PtePa(LeafPte(s.mem, q, k, h).value)
    requires Counted(l, PtePa(LeafPte(s.mem, r, i, j).value))
    ensures r == q && i == k && j == h
  {
    hide Inv, Pte, PteValid, PteReadable, PtePa, Counted, LeafPte;
    LeafOwner(l, s, r, i, j);
    LeafOwner(l, s, q, k, h);
  }

  /** The role of a counted page names its root, through the node. */
  lemma LeafOwner(l: Layout, s: Space, r: nat, i: nat, j: nat)
    requires Inv(l, s) && IsRoot(s, r) && i < PTES && j < PTES && LeafPte(s.mem, r, i, j).Some?
    requires Counted(l, PtePa(LeafPte(s.mem, r, i, j).value))
    ensures var f := PtePa(LeafPte(s.mem, r, i, j).value);
      f in s.own && s.own[f].Leaf? && s.own[f].j == j && s.own[f].node in s.own && s.own[s.own[f].node] == Node(r, i)
  {
    hide Pte, PteValid, PteReadable, PtePa, PteIsLeaf, MakePte, InHole, Counted;
    var n := PtePa(Pte(s.mem, r, i));
    assert RootEntry(s, r, i);
    FrameOf(Pte(s.mem, r, i));
    assert NodeEntry(l, s, n, j);
  }

  lemma NoNodeNoLeaf(s: Space, r: nat, i: nat, j: nat)
    requires IsFrame(r) && i < PTES && j < PTES && !PteValid(Pte(s.mem, r, i))
    ensures LeafPte(s.mem, r, i, j) == None
  {
    hide Pte, PteValid;
  }

  /** A leaf whose page is owned by another entry, by none or by a table, or that maps an uncounted page elsewhere, breaks
    the invariant. */
  lemma LeafBreaks(l: Layout, s: Space, n: nat, j: nat, pte: nat)
    requires Inv(l, s) && n in s.own && s.own[n].Node? && IsFrame(n) && j < PTES
    requires !PteValid(Pte(s.mem, n, j)) && pte < U32 && PteValid(pte)
    requires Counted(l, PtePa(pte)) || PtePa(pte) != PageVa(s.own[n].i, j)
    ensures !Inv(l, WriteLeaf(s, n, j, pte))
  {
    hide Pte, SetPte, PteValid, PteReadable, PteIsLeaf, PtePa, MakePte, InHole, IsFrame, Counted;
    PteSet(s.mem, n, j, pte, n, j);
    var t, f := WriteLeaf(s, n, j, pte), PtePa(pte);
    assert f in s.own ==> RoleOk(s, f);
    assert !NodeEntry(l, t, n, j);
  }

  /** The last step of a mapping that must not be made: the leaf entry is written all the same. */
  lemma AnywayLast(l: Layout, s: Space, s1: Space, r: nat, va: nat, n: nat, pa: nat, flags: nat, taken: set<nat>)
    requires Inv(l, s) && IsRoot(s, r) && va < U32 && pa < U32 && Bit(flags, 1) && !Mappable(l, s, va, pa) && TakenOk(l, s, taken)
    requires Descends(l, s, s1, r, VaVpn(va, 1), taken) && Under(s1, r, VaVpn(va, 1), n)
    requires !PteValid(Pte(s1.mem, n, VaVpn(va, 0)))
    ensures var t := WriteLeaf(s1, n, VaVpn(va, 0), LeafEntry(pa, flags));
      MapsAnyway(l, s, t, r, va, LeafEntry(pa, flags), taken) && !Inv(l, t)
    ensures LeafPte(s.mem, r, VaVpn(va, 1), VaVpn(va, 0)) == None
  {
    hide Inv, Pte, PteValid, LeafPte, LeafEntry, Bit, TakenOk, Descends, WriteLeaf, VaVpn, Counted, Fresh, PtePa, PageVa;
    var i, j := VaVpn(va, 1), VaVpn(va, 0);
    DescendsInv(l, s, s1, r, i, taken, va, pa);
    DescendsLookup(l, s, s1, r, i, taken, r, i, j);
    LeafUnder(l, s1, r, i, n, j);
    LeafEntryIs(pa, flags);
    PageVaIs(va);
    LeafBreaks(l, s1, n, j, LeafEntry(pa, flags));
  }

  /** Such a mapping, too, changes the translation of one page of one root, and no other. */
  lemma AnywayOnePage(l: Layout, s: Space, s': Space, r: nat, va: nat, pa: nat, flags: nat, taken: set<nat>, q: nat, k: nat, h: nat)
    requires Inv(l, s) && IsRoot(s, r) && va < U32 && pa < U32 && Bit(flags, 1) && TakenOk(l, s, taken)
    requires MapsAnyway(l, s, s', r, va, LeafEntry(pa, flags), taken)
    requires IsRoot(s, q) && k < PTES && h < PTES
    ensures LeafPte(s.mem, r, VaVpn(va, 1), VaVpn(va, 0)) == None
    ensures LeafPte(s'.mem, q, k, h) ==
      if q == r && k == VaVpn(va, 1) && h == VaVpn(va, 0) then Some(LeafEntry(pa, flags)) else LeafPte(s.mem, q, k, h)
  {
    hide Inv, InHole, Pte, PteValid, PteReadable, PtePa, LeafPte, Counted, IsFrame, SetPte, LeafEntry, Descends, VaVpn,
      Bit, TakenOk, NewLeaf, WriteLeaf, Fresh, Mappable;
    var i, j, pte := VaVpn(va, 1), VaVpn(va, 0), LeafEntry(pa, flags);
    var s1: Space, n :|
      Descends(l, s, s1, r, i, taken) && Under(s1, r, i, n) && !PteValid(Pte(s1.mem, n, j)) && s' == WriteLeaf(s1, n, j, pte);
    LeafEntryIs(pa, flags);
    DescendsInv(l, s, s1, r, i, taken, va, pa);
    DescendsLookup(l, s, s1, r, i, taken, q, k, h);
    DescendsLookup(l, s, s1, r, i, taken, r, i, j);
    LeafUnder(l, s1, r, i, n, j);
    NewLeafMaps(l, s1, r, i, n, j, pte, q, k, h);
    SameMemory(l, s1, n, j, pte);
  }

  lemma SameMemory(l: Layout, s: Space, n: nat, j: nat, pte: nat)
    requires IsFrame(n) && j < PTES && pte < U32
    ensures WriteLeaf(s, n, j, pte).mem == NewLeaf(l, s, n, j, pte).mem
  {
  }

  /** The last step of a mapping: the leaf entry is written. */
  lemma MapsLast(l: Layout, s: Space, s1: Space, r: nat, va: nat, n: nat, pa: nat, flags: nat, taken: set<nat>)
    requires Inv(l, s) && IsRoot(s, r) && va < U32 && pa < U32 && Bit(flags, 1) && Mappable(l, s, va, pa) && TakenOk(l, s, taken)
    requires Descends(l, s, s1, r, VaVpn(va, 1), taken) && Under(s1, r, VaVpn(va, 1), n)
    requires !PteValid(Pte(s1.mem, n, VaVpn(va, 0)))
    ensures var t := NewLeaf(l, s1, n, VaVpn(va, 0), LeafEntry(pa, flags));
      Maps(l, s, t, r, va, LeafEntry(pa, flags), taken) && Inv(l, t)
    ensures LeafPte(s.mem, r, VaVpn(va, 1), VaVpn(va, 0)) == None
  {
    hide Inv, Pte, PteValid, LeafPte, LeafEntry, Bit, Mappable, TakenOk, Descends, NewLeaf, VaVpn;
    var i, j := VaVpn(va, 1), VaVpn(va, 0);
    DescendsInv(l, s, s1, r, i, taken, va, pa);
    MapLeafInv(l, s1, r, n, va, pa, flags);
    DescendsLookup(l, s, s1, r, i, taken, r, i, j);
    LeafUnder(l, s1, r, i, n, j);
  }

  lemma NewLeafIs(l: Layout, s: Space, n: nat, j: nat, pte: nat)
    requires IsFrame(n) && j < PTES && pte < U32
    ensures NewLeaf(l, s, n, j, pte) ==
      Space(SetPte(s.mem, n, j, pte), s.used, if Counted(l, PtePa(pte)) then s.own[PtePa(pte) := Leaf(n, j)] else s.own)
  {
  }
}
