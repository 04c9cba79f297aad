/** What the hardware makes of a page table in physical memory, for programs in user mode. */
module Hardware {
  import opened Base
  import opened Bits
  import opened Memory
  import opened Sv32
  import opened Translation
  import opened Holes
  import opened PageTables
  import opened Mappings
  import opened Dumps

  datatype Access = Load | Store | Fetch

  /** What a leaf has to permit: user mode, the kind of access, and that A, and D for a store, are set. */
  predicate Allows(pte: nat, kind: Access) {
    && Bit(pte, 4) && Bit(pte, 6)
    && match kind
       case Load => Bit(pte, 1)
       case Store => Bit(pte, 2) && Bit(pte, 7)
       case Fetch => Bit(pte, 3)
  }

  /** Steps 3 to 8 of section 4.3.2 of the RISC-V Privileged Architecture v1.12 for the entry pte at level i, in user mode,
    where the A and D bits are not updated by the hardware. */
  function UserPte(pte: nat, va: nat, i: nat, kind: Access): LoadStep {
    var ppn0, ppn1 := pte / 1024 % 1024, pte / 1024 / 1024;
    if !Bit(pte, 0) || (!Bit(pte, 1) && Bit(pte, 2)) then Result(None)
    else if !Bit(pte, 1) && !Bit(pte, 3) then (if i == 0 then Result(None) else Table((ppn1 * 1024 + ppn0) * 4096))
    else if !Allows(pte, kind) then Result(None)
    else if i > 0 && ppn0 != 0 then Result(None)
    else Result(Some((ppn1 * 1024 + (if i > 0 then va / 4096 % 1024 else ppn0)) * 4096 + va % 4096))
  }

  /** Steps 2 to 8 at level i, with a the address of the current table. */
  ghost function UserAccess(m: Mem, a: nat, va: nat, i: nat, kind: Access): Option<nat>
    requires va < U32 && i < 2
    decreases i
  {
    var vpn := if i == 1 then va / 4096 / 1024 else va / 4096 % 1024;
    match PhysicalWord(m, a + vpn * 4)
    case None => None
    case Some(pte) =>
      match UserPte(pte, va, i, kind)
      case Result(pa) => pa
      case Table(next) => if i == 0 then None else UserAccess(m, next, va, i - 1, kind)
  }

  /** The address behind va, when the entry of its page allows the access. */
  ghost function UserTarget(m: Mem, r: nat, va: nat, kind: Access): Option<nat>
    requires IsFrame(r) && va / PAGE_SIZE < PAGES
  {
    match Entry(m, r, va / PAGE_SIZE)
    case Some(pte) => if Allows(pte, kind) then Some(PtePa(pte) + va % PAGE_SIZE) else None
    case None => None
  }

  /** A pointer to a node leads the hardware to that node. */
  lemma PointerStep(n: nat, va: nat, kind: Access)
    requires IsFrame(n)
    ensures UserPte(MakePte(n, V), va, 1, kind) == Table(n)
  {
    hide MakePte, PtePa, PteIsLeaf, PteReadable, PteWritable, PteValid, Bit;
    var pte := MakePte(n, V);
    PointerPte(n);
    PointerBits(n);
    PointerSmall(n);
    TableAddress(pte);
  }

  lemma PointerBits(n: nat)
    requires IsFrame(n)
    ensures var pte := MakePte(n, V); Bit(pte, 0) && !Bit(pte, 1) && !Bit(pte, 2) && !Bit(pte, 3)
  {
    hide MakePte, PtePa, Bit;
    PteRoundTrip(n, V, 0);
    PteRoundTrip(n, V, 1);
    PteRoundTrip(n, V, 2);
    PteRoundTrip(n, V, 3);
    BitValues(V);
  }

  lemma PointerSmall(n: nat)
    requires IsFrame(n)
    ensures SmallPpn(MakePte(n, V))
  {
    hide And, Or, Shl32, Pow2;
    DivModUnique(MakePte(n, V), 1024, n / PAGE_SIZE, V % 1024);
  }

  /** A readable leaf with a small page number leads to its page, when it allows the access. */
  lemma LeafStep(pte: nat, va: nat, kind: Access)
    requires pte < U32 && SmallPpn(pte) && Bit(pte, 0) && Bit(pte, 1)
    ensures UserPte(pte, va, 0, kind) == Result(if Allows(pte, kind) then Some(PtePa(pte) + va % PAGE_SIZE) else None)
  {
    hide PtePa, Bit;
    SplitPpn(pte);
  }

  /** The hardware, reading the tables of a root byte by byte, makes of every address and every kind of access what the entry
    of its page allows. */
  lemma UserLookup(l: Layout, s: Space, e: Mem, r: nat, va: nat, kind: Access)
    requires Inv(l, s) && IsRoot(s, r) && IsFrame(r) && va < U32 && forall n <- Tables(s.own, r) :: SamePages(e, s.mem, n)
    ensures va / PAGE_SIZE < PAGES && UserAccess(e, r, va, 1, kind) == UserTarget(s.mem, r, va, kind)
  {
    hide Pte, PteReadable, PteIsLeaf, PteWritable, PtePa, MakePte, InHole, IsFrame, VaVpn, SamePages, PhysicalWord,
      UserPte, Bit, Counted, SmallPpn, Allows;
    SplitVa(va);
    VpnBounds(va);
    VpnPage(va);
    var i, j := VaVpn(va, 1), VaVpn(va, 0);
    var top := Pte(s.mem, r, i);
    PteSame(e, s.mem, r, i);
    TableWord(e, r, i);
    assert RootEntry(s, r, i);
    FrameOf(top);
    if PteValid(top) {
      var n := PtePa(top);
      assert RoleOk(s, n);
      PointerPte(n);
      PointerStep(n, va, kind);
      PteSame(e, s.mem, n, j);
      TableWord(e, n, j);
      var leaf := Pte(s.mem, n, j);
      assert NodeEntry(l, s, n, j);
      if PteValid(leaf) {
        LeafStep(leaf, va, kind);
      } else {
        Invalid(leaf, va, 0, kind);
      }
    } else {
      Invalid(top, va, 1, kind);
    }
  }

  lemma Invalid(pte: nat, va: nat, i: nat, kind: Access)
    requires !Bit(pte, 0)
    ensures UserPte(pte, va, i, kind) == Result(None)
  {
  }

  /** What the hardware does with a page that a kernel was given. */
  lemma PermittedAccess(m: Mem, r: nat, va: nat, w: bool, x: bool)
    requires IsFrame(r) && va / PAGE_SIZE < PAGES && PermittedAt(m, r, va / PAGE_SIZE, w, x)
    ensures var pa := Some(Target(m, r, va / PAGE_SIZE).value + va % PAGE_SIZE);
      && UserTarget(m, r, va, Load) == pa && UserTarget(m, r, va, Store) == (if w then pa else None)
      && UserTarget(m, r, va, Fetch) == (if x then pa else None)
  {
    hide Entry, PtePa, Bit, IsFrame;
  }
}
