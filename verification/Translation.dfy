/** The software page-table walk, and the Sv32 translation it has to agree with. */
module Translation {
  import opened Base
  import opened Bits
  import opened Memory
  import opened Sv32

  ghost predicate IsFrame(n: nat) {
    n % PAGE_SIZE == 0 && n + PAGE_SIZE <= U32
  }

  /** Entry i of the page-table node at n. */
  ghost function Pte(m: Mem, n: nat, i: nat): (pte: nat)
    requires IsFrame(n) && i < PTES
    ensures pte < U32
  {
    Word(m, n + i * PTE_SIZE)
  }

  datatype FaultKind = NotValid | WriteWithoutRead | NotReadable | MisalignedSuperpage | NoLeaf

  datatype Walked = Pa(pa: nat) | Fault(kind: FaultKind)

  /** What the walk makes of one entry: an address, a fault, or the next node. */
  datatype Stepped = Done(result: Walked) | Next(node: nat)

  function WalkPte(pte: nat, va: nat, level: nat): (s: Stepped)
    requires pte < U32
    ensures s.Next? ==> s.node == PtePa(pte)
  {
    if !PteValid(pte) then Done(Fault(NotValid))
    else if !PteReadable(pte) && PteWritable(pte) then Done(Fault(WriteWithoutRead))
    else if PteIsLeaf(pte) then
      if !PteReadable(pte) then Done(Fault(NotReadable))
      else if level > 0 then
        if Misaligned(pte) then Done(Fault(MisalignedSuperpage)) else Done(Pa(SuperpagePa(pte, va)))
      else Done(Pa(PagePa(pte, va)))
    else Next(PtePa(pte))
  }

  lemma FrameOf(pte: nat)
    requires pte < U32
    ensures IsFrame(PtePa(pte))
  {
  }

  ghost function WalkFrom(m: Mem, node: nat, va: nat, level: nat): Walked
    requires IsFrame(node) && va < U32 && level < 2
    decreases level
  {
    var pte := Pte(m, node, VaVpn(va, level));
    FrameOf(pte);
    match WalkPte(pte, va, level)
    case Done(result) => result
    case Next(next) => if level == 0 then Fault(NoLeaf) else WalkFrom(m, next, va, level - 1)
  }

  ghost function Walk(m: Mem, root: nat, va: nat): Walked
    requires IsFrame(root) && va < U32
  {
    WalkFrom(m, root, va, 1)
  }

  // ---- section 4.3.2 of the RISC-V Privileged Architecture v1.12, for a load ----

  /** The little-endian word of a 34-bit physical memory whose part below 4 GiB is m; there is nothing above. */
  ghost function PhysicalWord(m: Mem, a: nat): Option<nat> {
    if a + 4 <= U32 then
      Some(At(m, a) as nat + 256 * (At(m, a + 1) as nat) + 65536 * (At(m, a + 2) as nat) + 16777216 * (At(m, a + 3) as nat))
    else None
  }

  datatype LoadStep = Result(pa: Option<nat>) | Table(a: nat)

  /** Steps 3 to 8 for the entry pte at level i. */
  function SpecPte(pte: nat, va: nat, i: nat): LoadStep {
    var v, r, w, x := Bit(pte, 0), Bit(pte, 1), Bit(pte, 2), Bit(pte, 3);
    var ppn0, ppn1 := pte / 1024 % 1024, pte / 1024 / 1024;
    if !v || (!r && w) then Result(None)
    else if !r && !x then (if i == 0 then Result(None) else Table((ppn1 * 1024 + ppn0) * 4096))
    else if !r then Result(None)
    else if i > 0 && ppn0 != 0 then Result(None)
    else Result(Some((ppn1 * 1024 + (if i > 0 then va / 4096 % 1024 else ppn0)) * 4096 + va % 4096))
  }

  /** Steps 2 to 8 at level i, with a the address of the current table. */
  ghost function SpecLoad(m: Mem, a: nat, va: nat, i: nat): Option<nat>
    requires va < U32 && i < 2
    decreases i
  {
    var vpn := if i == 1 then va / 4096 / 1024 else va / 4096 % 1024;
    match PhysicalWord(m, a + vpn * 4)
    case None => None
    case Some(pte) =>
      match SpecPte(pte, va, i)
      case Result(pa) => pa
      case Table(next) => if i == 0 then None else SpecLoad(m, next, va, i - 1)
  }

  /** A physical page number that fits the 32-bit addresses of the walk. */
  predicate SmallPpn(pte: nat) {
    pte / 1024 < 0x10_0000
  }

  /** Every entry the walk uses has a small PPN. */
  ghost predicate SmallPpns(m: Mem, node: nat, va: nat, level: nat)
    requires IsFrame(node) && va < U32 && level < 2
    decreases level
  {
    var pte := Pte(m, node, VaVpn(va, level));
    FrameOf(pte);
    SmallPpn(pte) && (WalkPte(pte, va, level).Next? && level > 0 ==> SmallPpns(m, PtePa(pte), va, level - 1))
  }

  function Loaded(w: Walked): Option<nat> {
    match w
    case Pa(pa) => Some(pa)
    case Fault(_) => None
  }

  lemma SplitVa(va: nat)
    requires va < U32
    ensures VaVpn(va, 0) == va / 4096 % 1024 && VaVpn(va, 1) == va / 4096 / 1024
    ensures va % 0x40_0000 == va / 4096 % 1024 * 4096 + va % 4096
  {
    hide VaVpn;
    var q := va / 4096;
    assert va / 0x40_0000 == q / 1024;
  }

  lemma SplitPpn(pte: nat)
    requires pte < U32 && SmallPpn(pte)
    ensures PtePa(pte) == (pte / 1024 / 1024 * 1024 + pte / 1024 % 1024) * 4096
    ensures pte / 1024 % 1024 == 0 ==> PtePa(pte) / 0x40_0000 * 0x40_0000 == pte / 1024 / 1024 * 1024 * 4096
  {
    hide PtePa;
    var p := pte / 1024;
    assert p % 0x10_0000 == p;
    assert p == p / 1024 * 1024 + p % 1024;
  }

  /** One entry: the walk and the architecture agree on what it means. */
  lemma StepAgrees(pte: nat, va: nat, level: nat)
    requires pte < U32 && va < U32 && level < 2 && SmallPpn(pte)
    ensures match WalkPte(pte, va, level)
      case Done(w) => SpecPte(pte, va, level) == Result(Loaded(w))
      case Next(node) => SpecPte(pte, va, level) == if level == 0 then Result(None) else Table(node)
  {
    hide And, Or, Pow2, Bit, VaVpn, PtePa, PteValid, PteReadable, PteWritable, PteIsLeaf, Misaligned, SuperpagePa, PagePa;
    SplitVa(va);
    SplitPpn(pte);
  }

  /** Without the bound on the PPN the walk returns the architecture's address modulo 2^32:
    the two agree on a leaf exactly when its PPN is small. */
  lemma LargePpnTruncated(pte: nat, va: nat, level: nat, p: nat)
    requires pte < U32 && va < U32 && level < 2 && SpecPte(pte, va, level) == Result(Some(p))
    ensures WalkPte(pte, va, level) == Done(Pa(p % U32))
    ensures WalkPte(pte, va, level) == Done(Pa(p)) <==> SmallPpn(pte)
  {
    hide WalkPte, SpecPte, SmallPpn;
    LeafTruncated(pte, va, level, p);
    LeafSmall(pte, va, level, p);
  }

  lemma LeafTruncated(pte: nat, va: nat, level: nat, p: nat)
    requires pte < U32 && va < U32 && level < 2 && SpecPte(pte, va, level) == Result(Some(p))
    ensures WalkPte(pte, va, level) == Done(Pa(p % U32))
  {
    hide And, Or, Pow2, Bit, VaVpn, PtePa, PteValid, PteReadable, PteWritable, PteIsLeaf, Misaligned, SuperpagePa, PagePa;
    SplitVa(va);
    PaFields(pte);
    TruncatedAddress(pte / 1024 / 1024, if level > 0 then va / 4096 % 1024 else pte / 1024 % 1024, va % 4096);
  }

  /** The page address from the upper and the lower ten bits of the PPN that it keeps. */
  lemma PaFields(pte: nat)
    requires pte < U32
    ensures PtePa(pte) == (pte / 1024 / 1024 % 1024 * 1024 + pte / 1024 % 1024) * 4096
    ensures PtePa(pte) / 0x40_0000 == pte / 1024 / 1024 % 1024
  {
    hide PtePa;
    var hi, lo := pte / 1024 / 1024, pte / 1024 % 1024;
    DivModUnique(pte / 1024, 0x10_0000, hi / 1024, hi % 1024 * 1024 + lo);
    DivModUnique(PtePa(pte), 0x40_0000, hi % 1024, lo * 4096);
  }

  /** The architecture's address of a leaf fits 32 bits exactly when its PPN is small. */
  lemma LeafSmall(pte: nat, va: nat, level: nat, p: nat)
    requires pte < U32 && level < 2 && SpecPte(pte, va, level) == Result(Some(p))
    ensures p % U32 == p <==> SmallPpn(pte)
  {
    hide Bit;
    var hi := pte / 1024 / 1024;
    TruncatedAddress(hi, if level > 0 then va / 4096 % 1024 else pte / 1024 % 1024, va % 4096);
    BelowWord(p);
    HighPart(pte / 1024);
  }

  lemma BelowWord(p: nat)
    ensures p % U32 == p <==> p < U32
  {
  }

  lemma HighPart(ppn: nat)
    ensures ppn < 0x10_0000 <==> ppn / 1024 < 1024
  {
  }

  /** One entry, whatever its page number. */
  lemma AnyStep(pte: nat, va: nat, level: nat)
    requires pte < U32 && va < U32 && level < 2
    ensures match WalkPte(pte, va, level)
      case Done(Pa(pa)) =>
        SpecPte(pte, va, level).Result? && SpecPte(pte, va, level).pa.Some? && (SpecPte(pte, va, level).pa == Some(pa) <==> SmallPpn(pte))
      case Done(Fault(_)) => SpecPte(pte, va, level) == Result(None)
      case Next(node) =>
        if level == 0 then SpecPte(pte, va, level) == Result(None)
        else SpecPte(pte, va, level).Table? && (if SmallPpn(pte) then SpecPte(pte, va, level).a == node else U32 <= SpecPte(pte, va, level).a)
  {
    hide And, Or, Pow2, Bit, VaVpn, PtePa, PteValid, PteReadable, PteWritable, PteIsLeaf, Misaligned, SuperpagePa, PagePa;
    if SpecPte(pte, va, level).Result? && SpecPte(pte, va, level).pa.Some? {
      LargePpnTruncated(pte, va, level, SpecPte(pte, va, level).pa.value);
    } else {
      SplitVa(va);
      TableAddress(pte);
    }
  }

  /** The address of the table that an entry points to, and what the walk makes of it. */
  lemma TableAddress(pte: nat)
    requires pte < U32
    ensures var a := (pte / 1024 / 1024 * 1024 + pte / 1024 % 1024) * 4096;
      if SmallPpn(pte) then a == PtePa(pte) else U32 <= a
  {
    hide PtePa;
    var p := pte / 1024;
    assert p == p / 1024 * 1024 + p % 1024;
    if SmallPpn(pte) {
      SplitPpn(pte);
    }
  }

  lemma TruncatedAddress(hi: nat, lo: nat, off: nat)
    requires lo < 1024 && off < 4096
    ensures ((hi * 1024 + lo) * 4096 + off) % U32 == (hi % 1024 * 1024 + lo) * 4096 + off
    ensures (hi * 1024 + lo) * 4096 + off < U32 <==> hi < 1024
  {
    var q := hi / 1024;
    assert hi == q * 1024 + hi % 1024;
    DivModUnique((hi * 1024 + lo) * 4096 + off, U32, q, (hi % 1024 * 1024 + lo) * 4096 + off);
  }

  /** The walk is the architecture's load translation, wherever the PPNs fit 32-bit addresses. */
  lemma {:induction false} WalkIsLoad(m: Mem, node: nat, va: nat, level: nat)
    requires IsFrame(node) && va < U32 && level < 2 && SmallPpns(m, node, va, level)
    ensures Loaded(WalkFrom(m, node, va, level)) == SpecLoad(m, node, va, level)
    decreases level
  {
    hide And, Or, Pow2, Bit, VaVpn, PtePa, WalkPte, SpecPte, Word, IsFrame;
    var pte := Pte(m, node, VaVpn(va, level));
    SplitVa(va);
    StepAgrees(pte, va, level);
    FrameOf(pte);
    TableWord(m, node, VaVpn(va, level));
    if level == 1 && WalkPte(pte, va, level).Next? {
      WalkIsLoad(m, PtePa(pte), va, 0);
    }
  }

  /** The walk agrees with the architecture exactly when it faults or every page number on its way is small: a large one
    leads the walk to an address that wraps, or to a table below 4 GiB where the architecture finds none. */
  lemma {:induction false} WalkIsLoadIff(m: Mem, node: nat, va: nat, level: nat)
    requires IsFrame(node) && va < U32 && level < 2
    ensures Loaded(WalkFrom(m, node, va, level)) == SpecLoad(m, node, va, level) <==>
      WalkFrom(m, node, va, level).Fault? || SmallPpns(m, node, va, level)
    decreases level
  {
    hide And, Or, Pow2, Bit, VaVpn, PtePa, WalkPte, SpecPte, Word, IsFrame, SmallPpn;
    var pte := Pte(m, node, VaVpn(va, level));
    SplitVa(va);
    AnyStep(pte, va, level);
    FrameOf(pte);
    TableWord(m, node, VaVpn(va, level));
    if level == 1 && WalkPte(pte, va, level).Next? {
      WalkIsLoadIff(m, PtePa(pte), va, 0);
    }
  }

  lemma TableWord(m: Mem, node: nat, i: nat)
    requires IsFrame(node) && i < PTES
    ensures PhysicalWord(m, node + i * 4) == Some(Pte(m, node, i))
  {
  }
}
