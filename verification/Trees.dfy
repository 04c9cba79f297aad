/** The tree of frames below a page table, and how a traversal of its entries meets each of them once. */
module Trees {
  import opened Bits
  import opened Memory
  import opened Sv32
  import opened Translation
  import opened Holes
  import opened PageTables

  ghost predicate IsNode(s: Space, n: nat) {
    n in s.own && s.own[n].Node? && IsFrame(n)
  }

  /** pa is a table of the given level: a root at level 1, a node at level 0. */
  ghost predicate TableAt(s: Space, pa: nat, level: int) {
    -1 <= level <= 1 && (level == 1 ==> IsRoot(s, pa)) && (level == 0 ==> IsNode(s, pa))
  }

  /** All frames of a table and below; there is nothing below level 0. */
  ghost function Subtree(own: map<nat, Role>, pa: nat, level: int): set<nat> {
    if level < 0 then {} else Family(own, pa)
  }

  /** The frames that an entry of a table leads to. */
  ghost function EntryFrames(l: Layout, s: Space, pte: nat, level: int): set<nat>
    requires pte < U32
  {
    if !PteValid(pte) then {}
    else if !PteIsLeaf(pte) then Subtree(s.own, PtePa(pte), level - 1)
    else if Counted(l, PtePa(pte)) then {PtePa(pte)} else {}
  }

  lemma RootEntryFrames(l: Layout, s: Space, r: nat, i: nat)
    requires Inv(l, s) && IsRoot(s, r) && i < PTES
    ensures var pte := Pte(s.mem, r, i);
      && (PteValid(pte) ==> !PteIsLeaf(pte) && IsNode(s, PtePa(pte)) && s.own[PtePa(pte)] == Node(r, i))
      && Reached(s.own, r, i + 1) == Reached(s.own, r, i) + EntryFrames(l, s, pte, 1)
      && EntryFrames(l, s, pte, 1) !! Reached(s.own, r, i) && r !in EntryFrames(l, s, pte, 1)
  {
    hide Pte, PteValid, PteReadable, PteIsLeaf, PtePa, MakePte, InHole, IsFrame;
    var pte := Pte(s.mem, r, i);
    assert RootEntry(s, r, i);
    FrameOf(pte);
    forall f | f in s.own ensures Beneath(s.own, f, r, i + 1) <==> Beneath(s.own, f, r, i) || f in EntryFrames(l, s, pte, 1) {
      assert RoleOk(s, f);
      OnlyNode(s, r, i, f);
      if s.own[f].Leaf? {
        OnlyNode(s, r, i, s.own[f].node);
      }
    }
    assert forall f <- EntryFrames(l, s, pte, 1) :: f in s.own;
  }

  /** A frame whose role is the node under an entry is the one the entry points to. */
  lemma OnlyNode(s: Space, r: nat, i: nat, f: nat)
    requires RolesOk(s) && IsRoot(s, r) && i < PTES
    ensures f in s.own && s.own[f] == Node(r, i) ==> PteValid(Pte(s.mem, r, i)) && PtePa(Pte(s.mem, r, i)) == f
  {
    hide Pte, PteValid, PteReadable, PteWritable, PteIsLeaf, PtePa, MakePte;
    if f in s.own && s.own[f] == Node(r, i) {
      assert RoleOk(s, f);
      PointerPte(f);
    }
  }

  lemma NodeEntryFrames(l: Layout, s: Space, n: nat, i: nat)
    requires Inv(l, s) && IsNode(s, n) && i < PTES
    ensures var pte := Pte(s.mem, n, i);
      && (PteValid(pte) ==> PteIsLeaf(pte))
      && Reached(s.own, n, i + 1) == Reached(s.own, n, i) + EntryFrames(l, s, pte, 0)
      && EntryFrames(l, s, pte, 0) !! Reached(s.own, n, i) && n !in EntryFrames(l, s, pte, 0)
  {
    hide Pte, PteValid, PteReadable, PteIsLeaf, PtePa, MakePte, InHole, IsFrame;
    var pte := Pte(s.mem, n, i);
    assert NodeEntry(l, s, n, i);
    ReadableIsLeaf(pte);
    forall f | f in s.own ensures Beneath(s.own, f, n, i + 1) <==> Beneath(s.own, f, n, i) || f in EntryFrames(l, s, pte, 0) {
      assert RoleOk(s, f);
      CountedOwn(l, s, f);
      if s.own[f].Leaf? {
        assert RoleOk(s, s.own[f].node);
      }
    }
    assert forall f <- EntryFrames(l, s, pte, 0) :: f in s.own;
  }

  /** Owned frames are counted. */
  lemma CountedOwn(l: Layout, s: Space, f: nat)
    requires FramesOk(l, s) && f in s.own
    ensures Counted(l, f) && f in s.used
  {
    hide InHole, IsFrame;
  }

  /** What the entry i of a table adds to the frames reached through the entries before it. */
  lemma EntryOf(l: Layout, s: Space, pa: nat, level: nat, i: nat)
    requires Inv(l, s) && TableAt(s, pa, level) && i < PTES && IsFrame(pa)
    ensures var pte := Pte(s.mem, pa, i);
      && (PteValid(pte) && !PteIsLeaf(pte) ==> level == 1 && TableAt(s, PtePa(pte), level - 1))
      && (PteValid(pte) && PteIsLeaf(pte) ==> level == 0)
      && Reached(s.own, pa, i + 1) == Reached(s.own, pa, i) + EntryFrames(l, s, pte, level)
      && EntryFrames(l, s, pte, level) !! Reached(s.own, pa, i)
  {
    hide Inv, Pte, PteValid, PteIsLeaf, PtePa, EntryFrames, Reached, IsRoot, IsNode, IsFrame;
    if level == 1 {
      RootEntryFrames(l, s, pa, i);
    } else {
      NodeEntryFrames(l, s, pa, i);
    }
  }

  lemma NothingReached(own: map<nat, Role>, pa: nat)
    ensures Reached(own, pa, 0) == {}
  {
  }

  // ---- addresses released ----

  /** Among the addresses released, each frame of S occurs once, and no other counted frame does. */
  ghost predicate Once(l: Layout, released: multiset<nat>, S: set<nat>) {
    forall f | Counted(l, f) :: released[f] == if f in S then 1 else 0
  }

  lemma OnceNothing(l: Layout)
    ensures Once(l, multiset{}, {})
  {
  }

  lemma OnceBoth(l: Layout, a: multiset<nat>, S: set<nat>, b: multiset<nat>, T: set<nat>)
    requires Once(l, a, S) && Once(l, b, T) && S !! T
    ensures Once(l, a + b, S + T)
  {
    hide Counted;
  }

  lemma OnceOne(l: Layout, f: nat)
    ensures Once(l, multiset{f}, if Counted(l, f) then {f} else {})
  {
    hide InHole;
  }

  /** The node as bytes holds its entries. */
  function EntryIn(node: seq<byte>, i: nat): (pte: nat)
    requires |node| == PAGE_SIZE && i < PTES
    ensures pte < U32
  {
    Decode(node[i * PTE_SIZE..i * PTE_SIZE + PTE_SIZE])
  }

  lemma EntryInIs(m: Mem, pa: nat, i: nat)
    requires IsFrame(pa) && i < PTES
    ensures |Bytes(m, pa, PAGE_SIZE)| == PAGE_SIZE && EntryIn(Bytes(m, pa, PAGE_SIZE), i) == Pte(m, pa, i)
  {
    var node := Bytes(m, pa, PAGE_SIZE);
    assert node[i * PTE_SIZE..i * PTE_SIZE + PTE_SIZE] == Bytes(m, pa + i * PTE_SIZE, PTE_SIZE);
  }

  /** After the release of a leaf's page: a page that is not counted was not in use. */
  lemma LeafReleased(l: Layout, s: Space, pte: nat, used: set<nat>)
    requires Inv(l, s) && used <= s.used && pte < U32 && PteValid(pte) && PteIsLeaf(pte)
    ensures (if InHole(l.holes, PtePa(pte)) then used else used - {PtePa(pte)}) == used - EntryFrames(l, s, pte, 0)
    ensures EntryFrames(l, s, pte, 0) == if Counted(l, PtePa(pte)) then {PtePa(pte)} else {}
  {
    hide PteValid, PteIsLeaf, PtePa, InHole;
  }

  lemma SubtreeIs(s: Space, pa: nat, level: int)
    requires TableAt(s, pa, level)
    ensures level >= 0 ==> IsFrame(pa) && pa + PAGE_SIZE <= U32 && pa in s.own && Subtree(s.own, pa, level) == Reached(s.own, pa, PTES) + {pa}
    ensures level < 0 ==> Subtree(s.own, pa, level) == {}
    ensures -1 <= level <= 1
  {
    hide Reached;
  }

  lemma NotBelowItself(l: Layout, s: Space, pa: nat, level: nat)
    requires Inv(l, s) && TableAt(s, pa, level)
    ensures pa !in Reached(s.own, pa, PTES)
  {
    hide Pte, PteValid, PteReadable, PteIsLeaf, PtePa, MakePte, IsFrame;
    assert RoleOk(s, pa);
  }

  lemma NothingEntry(l: Layout, s: Space, pte: nat, level: nat, done: set<nat>)
    requires pte < U32 && !PteValid(pte)
    ensures done + EntryFrames(l, s, pte, level) == done
  {
  }

  lemma PointerEntry(l: Layout, s: Space, pte: nat, level: nat)
    requires pte < U32 && PteValid(pte) && !PteIsLeaf(pte)
    ensures EntryFrames(l, s, pte, level) == Subtree(s.own, PtePa(pte), level - 1)
  {
  }

  lemma MinusBoth(used: set<nat>, A: set<nat>, B: set<nat>)
    ensures used - A - B == used - (A + B)
  {
  }

  lemma TablePageOwned(l: Layout, s: Space, pa: nat)
    requires Inv(l, s) && pa in s.own
    ensures Counted(l, pa) && !InHole(l.holes, pa)
  {
    CountedOwn(l, s, pa);
  }
}
