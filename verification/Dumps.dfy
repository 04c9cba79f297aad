/** What a dump of a page table holds: the tables themselves, or the map from pages to frames. */
module Dumps {
  import opened Base
  import opened Bits
  import opened Memory
  import opened Sv32
  import opened Translation
  import opened Holes
  import opened PageTables
  import opened Mappings
  import opened Trees
  import opened Scratchpad

  // ---- the tables ----

  /** The nodes under the entries of table p below i. */
  ghost function NodesBelow(own: map<nat, Role>, p: nat, i: nat): set<nat> {
    set n | n in own && own[n].Node? && own[n].root == p && own[n].i < i
  }

  /** A table with the nodes below it. */
  ghost function Tables(own: map<nat, Role>, p: nat): set<nat> {
    {p} + NodesBelow(own, p, PTES)
  }

  /** d' is d with the contents of the tables S. */
  ghost predicate Dumped(m: Mem, d: Store, d': Store, S: set<nat>) {
    && d'.Keys == d.Keys + S
    && (forall k <- S :: k + PAGE_SIZE <= U32 && d'[k] == Bytes(m, k, PAGE_SIZE))
    && (forall k <- d | k !in S :: d'[k] == d[k])
  }

  lemma DumpedBoth(m: Mem, d: Store, d1: Store, d2: Store, S: set<nat>, T: set<nat>)
    requires Dumped(m, d, d1, S) && Dumped(m, d1, d2, T)
    ensures Dumped(m, d, d2, S + T)
  {
    hide Bytes;
  }

  lemma DumpedOne(m: Mem, d: Store, k: nat)
    requires IsFrame(k)
    ensures k + PAGE_SIZE <= U32 && Dumped(m, d, d[k := Bytes(m, k, PAGE_SIZE)], {k})
  {
    hide Bytes;
  }

  /** What the entry i of a table adds to the nodes below it. */
  ghost function EntryTables(s: Space, pte: nat): set<nat>
    requires pte < U32
  {
    if PteValid(pte) && !PteIsLeaf(pte) then Tables(s.own, PtePa(pte)) else {}
  }

  lemma EntryTable(l: Layout, s: Space, pa: nat, level: nat, i: nat)
    requires Inv(l, s) && TableAt(s, pa, level) && i < PTES && IsFrame(pa)
    ensures var pte := Pte(s.mem, pa, i);
      && (PteValid(pte) && !PteIsLeaf(pte) ==> level == 1 && TableAt(s, PtePa(pte), 0))
      && NodesBelow(s.own, pa, i + 1) == NodesBelow(s.own, pa, i) + EntryTables(s, pte)
  {
    hide Pte, PteValid, PteReadable, PteIsLeaf, PtePa, MakePte, InHole;
    if level == 1 {
      RootTables(l, s, pa, i);
    } else {
      assert NodeEntry(l, s, pa, i);
      ReadableIsLeaf(Pte(s.mem, pa, i));
      NoNodesBelow(s, pa, i);
      NoNodesBelow(s, pa, i + 1);
    }
  }

  /** A node has no nodes below it. */
  lemma NoNodesBelow(s: Space, n: nat, i: nat)
    requires RolesOk(s) && IsNode(s, n)
    ensures NodesBelow(s.own, n, i) == {}
  {
    hide Pte, PteValid, PteReadable, PteIsLeaf, PtePa, MakePte;
    forall f | f in s.own ensures f !in NodesBelow(s.own, n, i) {
      assert RoleOk(s, f);
    }
  }

  lemma RootTables(l: Layout, s: Space, r: nat, i: nat)
    requires Inv(l, s) && IsRoot(s, r) && i < PTES
    ensures var pte := Pte(s.mem, r, i);
      && (PteValid(pte) && !PteIsLeaf(pte) ==> IsNode(s, PtePa(pte)))
      && NodesBelow(s.own, r, i + 1) == NodesBelow(s.own, r, i) + EntryTables(s, pte)
  {
    hide Pte, PteValid, PteReadable, PteIsLeaf, PtePa, MakePte, InHole, Beneath, NodesBelow;
    var pte := Pte(s.mem, r, i);
    RootEntryFrames(l, s, r, i);
    if PteValid(pte) {
      NoNodesBelow(s, PtePa(pte), PTES);
    }
    forall f | f in s.own
      ensures f in NodesBelow(s.own, r, i + 1) <==> f in NodesBelow(s.own, r, i) || s.own[f] == Node(r, i)
      ensures f in NodesBelow(s.own, r, i) ==> f in s.own
    {
      BelowNext(s.own, r, i, f);
      OnlyNode(s, r, i, f);
    }
    NodesOwned(s.own, r, i);
    NodesOwned(s.own, r, i + 1);
    forall f ensures f in NodesBelow(s.own, r, i + 1) <==> f in NodesBelow(s.own, r, i) || f in EntryTables(s, pte) {
      OnlyNode(s, r, i, f);
    }
  }

  lemma NodesOwned(own: map<nat, Role>, p: nat, i: nat)
    ensures NodesBelow(own, p, i) <= own.Keys
  {
  }

  lemma BelowNext(own: map<nat, Role>, r: nat, i: nat, f: nat)
    requires f in own
    ensures f in NodesBelow(own, r, i + 1) <==> f in NodesBelow(own, r, i) || own[f] == Node(r, i)
  {
  }

  /** The tables dumped are those that the walk can reach: the root, and what its valid entries point to. */
  lemma TablesReachable(l: Layout, s: Space, r: nat, n: nat)
    requires Inv(l, s) && IsRoot(s, r) && IsFrame(r)
    ensures n in Tables(s.own, r) <==> n == r || exists i :: 0 <= i < PTES && PteValid(Pte(s.mem, r, i)) && PtePa(Pte(s.mem, r, i)) == n
  {
    hide Pte, PteValid, PteReadable, PteIsLeaf, PtePa, MakePte, InHole, IsFrame;
    if n in NodesBelow(s.own, r, PTES) {
      OnlyNode(s, r, s.own[n].i, n);
    }
    forall i | 0 <= i < PTES && PteValid(Pte(s.mem, r, i)) && PtePa(Pte(s.mem, r, i)) == n ensures n in NodesBelow(s.own, r, PTES) {
      assert RootEntry(s, r, i);
    }
  }

  /** Two memories hold the same page at n. */
  ghost predicate SamePages(m: Mem, m': Mem, n: nat) {
    forall a | n <= a < n + PAGE_SIZE && a < U32 :: At(m, a) == At(m', a)
  }

  lemma PteSame(m: Mem, m': Mem, n: nat, i: nat)
    requires IsFrame(n) && i < PTES && SamePages(m, m', n)
    ensures Pte(m, n, i) == Pte(m', n, i)
  {
    hide Decode, At;
    assert Bytes(m, n + i * PTE_SIZE, 4) == Bytes(m', n + i * PTE_SIZE, 4);
  }

  /** A walk depends on the tables of its root only. */
  lemma WalkAgrees(l: Layout, s: Space, r: nat, m: Mem, va: nat)
    requires Inv(l, s) && IsRoot(s, r) && IsFrame(r) && va < U32 && forall n <- Tables(s.own, r) :: SamePages(m, s.mem, n)
    ensures Walk(m, r, va) == Walk(s.mem, r, va)
  {
    hide Pte, PteValid, PteReadable, PteIsLeaf, PteWritable, PtePa, MakePte, InHole, IsFrame, VaVpn, SuperpagePa,
      PagePa, Misaligned, SamePages;
    VpnBounds(va);
    var top := Pte(s.mem, r, VaVpn(va, 1));
    PteSame(m, s.mem, r, VaVpn(va, 1));
    assert RootEntry(s, r, VaVpn(va, 1));
    FrameOf(top);
    if PteValid(top) {
      PteSame(m, s.mem, PtePa(top), VaVpn(va, 0));
    }
  }

  /** So do the entries of its pages. */
  lemma EntriesAgree(l: Layout, s: Space, r: nat, m: Mem)
    requires Inv(l, s) && IsRoot(s, r) && IsFrame(r) && forall n <- Tables(s.own, r) :: SamePages(m, s.mem, n)
    ensures SameEntries(s.mem, m, r)
  {
    hide Pte, PteValid, PteReadable, PteIsLeaf, PteWritable, PtePa, MakePte, InHole, IsFrame, SamePages;
    forall p | 0 <= p < PAGES ensures Entry(m, r, p) == Entry(s.mem, r, p) {
      PageSplit(p);
      var top := Pte(s.mem, r, p / 1024);
      PteSame(m, s.mem, r, p / 1024);
      assert RootEntry(s, r, p / 1024);
      FrameOf(top);
      if PteValid(top) {
        PteSame(m, s.mem, PtePa(top), p % 1024);
      }
    }
  }

  lemma DumpPage(d: Store, m: Mem, n: nat)
    requires IsFrame(n) && n in d && d[n] == Bytes(m, n, PAGE_SIZE)
    ensures SamePages(MemOf(d), m, n)
  {
    forall a | n <= a < n + PAGE_SIZE && a < U32 ensures At(MemOf(d), a) == At(m, a) {
      PageOf(n, a - n);
    }
  }

  lemma PageOf(n: nat, o: nat)
    requires n % PAGE_SIZE == 0 && o < PAGE_SIZE
    ensures (n + o) % PAGE_SIZE == o
  {
  }

  lemma TableFrames(l: Layout, s: Space, r: nat)
    requires Inv(l, s) && IsRoot(s, r)
    ensures forall n <- Tables(s.own, r) :: IsFrame(n) && n in s.own && !s.own[n].Leaf?
  {
    hide IsFrame, RolesOk, EntriesOk;
  }

  /** A walk over the dumped tables alone is the walk over the whole memory. */
  lemma DumpWalks(l: Layout, s: Space, r: nat, d: Store, va: nat)
    requires Inv(l, s) && IsRoot(s, r) && IsFrame(r) && va < U32 && Dumped(s.mem, map[], d, Tables(s.own, r))
    ensures Walk(MemOf(d), r, va) == Walk(s.mem, r, va)
  {
    hide Inv, IsFrame, Walk, MemOf, Bytes, SamePages, Tables;
    TableFrames(l, s, r);
    forall n <- Tables(s.own, r) ensures SamePages(MemOf(d), s.mem, n) {
      DumpPage(d, s.mem, n);
    }
    WalkAgrees(l, s, r, MemOf(d), va);
  }

  lemma TablesIs(own: map<nat, Role>, p: nat)
    ensures Tables(own, p) == {p} + NodesBelow(own, p, PTES) && NodesBelow(own, p, 0) == {}
  {
  }

  lemma PointerTables(s: Space, pte: nat)
    requires pte < U32
    ensures EntryTables(s, pte) == if PteValid(pte) && !PteIsLeaf(pte) then Tables(s.own, PtePa(pte)) else {}
  {
  }

  lemma DumpedNothing(m: Mem, d: Store, d': Store, S: set<nat>)
    requires Dumped(m, d, d', S)
    ensures S + {} == S
  {
  }

  // ---- the map from pages to frames ----

  type Graph = seq<(nat, nat)>

  /** The pairs are the mapped pages of [lo, hi) with their frames, in order. */
  ghost predicate GraphOf(m: Mem, r: nat, lo: nat, hi: nat, g: Graph)
    requires IsFrame(r) && hi <= PAGES
  {
    && (forall k | 0 <= k < |g| :: Listed(m, r, lo, hi, g[k]))
    && (forall j, k | 0 <= j < k < |g| :: g[j].0 < g[k].0)
    && (forall p | lo <= p < hi && Target(m, r, p).Some? :: (p * PAGE_SIZE, Target(m, r, p).value) in g)
  }

  ghost predicate Listed(m: Mem, r: nat, lo: nat, hi: nat, x: (nat, nat))
    requires IsFrame(r) && hi <= PAGES
  {
    x.0 % PAGE_SIZE == 0 && lo <= x.0 / PAGE_SIZE < hi && Target(m, r, x.0 / PAGE_SIZE) == Some(x.1)
  }

  lemma GraphBoth(m: Mem, r: nat, lo: nat, mid: nat, hi: nat, g: Graph, h: Graph)
    requires IsFrame(r) && lo <= mid <= hi <= PAGES && GraphOf(m, r, lo, mid, g) && GraphOf(m, r, mid, hi, h)
    ensures GraphOf(m, r, lo, hi, g + h)
  {
    hide Entry, PtePa, IsFrame, Listed;
    forall k | 0 <= k < |g + h| ensures Listed(m, r, lo, hi, (g + h)[k]) {
      if k < |g| {
        ListedWider(m, r, lo, mid, lo, hi, g[k]);
      } else {
        ListedWider(m, r, mid, hi, lo, hi, h[k - |g|]);
      }
    }
    forall j, k | 0 <= j < k < |g + h| ensures (g + h)[j].0 < (g + h)[k].0 {
      if j < |g| <= k {
        ListedBelow(m, r, lo, mid, hi, g[j], h[k - |g|]);
      }
    }
    assert forall x | x in g || x in h :: x in g + h;
  }

  lemma ListedWider(m: Mem, r: nat, lo: nat, hi: nat, lo': nat, hi': nat, x: (nat, nat))
    requires IsFrame(r) && hi <= hi' <= PAGES && lo' <= lo && Listed(m, r, lo, hi, x)
    ensures Listed(m, r, lo', hi', x)
  {
    hide Entry, PtePa, IsFrame;
  }

  lemma ListedBelow(m: Mem, r: nat, lo: nat, mid: nat, hi: nat, x: (nat, nat), y: (nat, nat))
    requires IsFrame(r) && mid <= hi <= PAGES && Listed(m, r, lo, mid, x) && Listed(m, r, mid, hi, y)
    ensures x.0 < y.0
  {
    hide Entry, PtePa, IsFrame;
  }

  lemma GraphNone(m: Mem, r: nat, lo: nat, hi: nat)
    requires IsFrame(r) && hi <= PAGES && forall p | lo <= p < hi :: Target(m, r, p) == None
    ensures GraphOf(m, r, lo, hi, [])
  {
    hide Entry, PtePa;
  }

  lemma GraphOne(m: Mem, r: nat, p: nat, f: nat)
    requires IsFrame(r) && p < PAGES && Target(m, r, p) == Some(f)
    ensures GraphOf(m, r, p, p + 1, [(p * PAGE_SIZE, f)])
  {
    hide Entry, PtePa, IsFrame;
    var g: Graph := [(p * PAGE_SIZE, f)];
    assert g[0] in g;
    assert p * PAGE_SIZE / PAGE_SIZE == p && p * PAGE_SIZE % PAGE_SIZE == 0;
  }

  /** The pairs list a page-aligned address exactly when it translates, with its translation. */
  lemma GraphIsTranslation(l: Layout, s: Space, r: nat, g: Graph, va: nat, pa: nat)
    requires Inv(l, s) && IsRoot(s, r) && IsFrame(r) && GraphOf(s.mem, r, 0, PAGES, g) && va < U32 && va % PAGE_SIZE == 0
    ensures (va, pa) in g <==> Walk(s.mem, r, va) == Pa(pa)
  {
    hide Inv, Entry, PtePa, Walk, IsFrame;
    WalkIsTarget(l, s, r, va);
    if (va, pa) in g {
      var k :| 0 <= k < |g| && g[k] == (va, pa);
      assert Listed(s.mem, r, 0, PAGES, g[k]);
    }
  }

  /** The pages that one entry of a table of the given level covers. */
  function Span(level: nat): (n: nat)
    ensures n == if level == 0 then 1 else PTES
  {
    if level == 0 then 1 else PTES
  }

  /** The first page that entry i covers, in a table that covers the pages from b on. */
  function EntryPage(b: nat, i: nat, level: nat): (p: nat)
    ensures b <= p
  {
    b + i * Span(level)
  }

  /** The table at pa covers the pages of root r from page b on. */
  ghost predicate Covers(s: Space, r: nat, pa: nat, level: nat, b: nat) {
    && IsRoot(s, r) && level < 2 && (level == 1 ==> pa == r && b == 0)
    && (level == 0 ==> b % PTES == 0 && b < PAGES && Under(s, r, b / PTES, pa))
  }

  lemma CoversFrame(s: Space, r: nat, pa: nat, level: nat, b: nat)
    requires Covers(s, r, pa, level, b)
    ensures IsFrame(pa) && IsFrame(r) && pa + PAGE_SIZE <= U32 && level < 2
    ensures b + PTES * Span(level) <= PAGES && b % (PTES * Span(level)) == 0
  {
  }

  /** What the entry pte says about the pages from p on. */
  ghost predicate EntryGraphed(s: Space, r: nat, level: nat, p: nat, pte: nat)
    requires IsFrame(r) && p + Span(level) <= PAGES && pte < U32
  {
    if !PteValid(pte) then GraphOf(s.mem, r, p, p + Span(level), [])
    else if PteIsLeaf(pte) then Span(level) == 1 && GraphOf(s.mem, r, p, p + 1, [(p * PAGE_SIZE, PtePa(pte))])
    else level == 1 && Covers(s, r, PtePa(pte), 0, p)
  }

  lemma EntryGraph(l: Layout, s: Space, r: nat, pa: nat, level: nat, b: nat, i: nat)
    requires Inv(l, s) && Covers(s, r, pa, level, b) && i < PTES && IsFrame(r) && IsFrame(pa)
    ensures EntryPage(b, i, level) + Span(level) <= PAGES
    ensures EntryGraphed(s, r, level, EntryPage(b, i, level), Pte(s.mem, pa, i))
  {
    hide Inv, Pte, PteValid, PteIsLeaf, PtePa, LeafPte, IsFrame, Under, GraphOf, IsRoot;
    var p := EntryPage(b, i, level);
    if level == 1 {
      RootEntryGraph(l, s, r, i);
    } else {
      assert p / PTES == b / PTES && p % PTES == i;
      NodeEntryGraph(l, s, r, b / PTES, pa, i, p);
    }
  }

  lemma RootEntryGraph(l: Layout, s: Space, r: nat, i: nat)
    requires Inv(l, s) && IsRoot(s, r) && i < PTES && IsFrame(r)
    ensures var pte := Pte(s.mem, r, i);
      && (PteValid(pte) ==> !PteIsLeaf(pte) && Covers(s, r, PtePa(pte), 0, i * PTES))
      && (!PteValid(pte) ==> GraphOf(s.mem, r, i * PTES, i * PTES + PTES, []))
  {
    hide Inv, Pte, PteValid, PteIsLeaf, PtePa, LeafPte, IsFrame, Under, GraphOf;
    if PteValid(Pte(s.mem, r, i)) {
      ExistingNode(l, s, r, i);
      RootEntryFrames(l, s, r, i);
    } else {
      forall p | i * PTES <= p < i * PTES + PTES ensures Target(s.mem, r, p) == None {
        assert p / 1024 == i;
        NoNodeNoLeaf(s, r, i, p % 1024);
      }
      GraphNone(s.mem, r, i * PTES, i * PTES + PTES);
    }
  }

  lemma NodeEntryGraph(l: Layout, s: Space, r: nat, k: nat, n: nat, i: nat, p: nat)
    requires Inv(l, s) && Under(s, r, k, n) && i < PTES && p < PAGES && p / PTES == k && p % PTES == i && IsFrame(r) && IsFrame(n)
    ensures var pte := Pte(s.mem, n, i);
      && (PteValid(pte) ==> PteIsLeaf(pte) && GraphOf(s.mem, r, p, p + 1, [(p * PAGE_SIZE, PtePa(pte))]))
      && (!PteValid(pte) ==> GraphOf(s.mem, r, p, p + 1, []))
  {
    hide Inv, Pte, PteValid, PteIsLeaf, PtePa, LeafPte, IsFrame, GraphOf;
    LeafUnder(l, s, r, k, n, i);
    NodeEntryFrames(l, s, n, i);
    if PteValid(Pte(s.mem, n, i)) {
      GraphOne(s.mem, r, p, PtePa(Pte(s.mem, n, i)));
    } else {
      GraphNone(s.mem, r, p, p + 1);
    }
  }

  lemma OrZero(x: nat)
    ensures Or(0, x) == x
  {
  }

  /** The address of an entry's first page, as the bit operations compute it. */
  lemma EntryVa(b: nat, i: nat, level: nat)
    requires level < 2 && i < PTES && b + PTES * Span(level) <= PAGES && b % (PTES * Span(level)) == 0
    ensures Or(b * PAGE_SIZE, Shl32(i, 12 + level * VPN_BITS)) == EntryPage(b, i, level) * PAGE_SIZE
  {
    hide Or, Pow2;
    Powers();
    if level == 0 {
      var q := b / PTES;
      assert b * PAGE_SIZE == q * 0x40_0000;
      OrDisjoint(q, i * PAGE_SIZE, 22);
    } else {
      assert b == 0;
      OrZero(i * 0x40_0000);
    }
  }

  lemma EntryGraphIs(s: Space, r: nat, level: nat, p: nat, pte: nat)
    requires IsFrame(r) && p + Span(level) <= PAGES && pte < U32 && EntryGraphed(s, r, level, p, pte)
    ensures !PteValid(pte) ==> GraphOf(s.mem, r, p, p + Span(level), [])
    ensures PteValid(pte) && PteIsLeaf(pte) ==> GraphOf(s.mem, r, p, p + Span(level), [(p * PAGE_SIZE, PtePa(pte))])
    ensures PteValid(pte) && !PteIsLeaf(pte) ==> level == 1 && Covers(s, r, PtePa(pte), 0, p) && Span(0) * PTES == Span(level)
  {
    hide GraphOf, Covers, PteValid, PteIsLeaf, PtePa;
  }

  lemma StretchNext(b: nat, i: nat, level: nat)
    ensures EntryPage(b, i + 1, level) == EntryPage(b, i, level) + Span(level) && EntryPage(b, 0, level) == b
    ensures EntryPage(b, PTES, level) == b + PTES * Span(level)
  {
  }

  lemma RootCovers(s: Space, r: nat)
    requires IsRoot(s, r)
    ensures IsFrame(r) && Covers(s, r, r, 1, 0) && PTES * Span(1) == PAGES
  {
  }

  lemma GraphStarts(m: Mem, r: nat, b: nat)
    requires IsFrame(r) && b <= PAGES
    ensures GraphOf(m, r, b, b, [])
  {
  }
}
