/** The Sv32 page-table entry, virtual address and satp formats. */
module Sv32 {
  import opened Bits
  import opened Memory

  const V: nat := 1
  const R: nat := 2
  const W: nat := 4
  const X: nat := 8
  const U: nat := 16
  const A: nat := 64
  const D: nat := 128

  const VPN_BITS: nat := 10

  lemma Powers()
    ensures Pow2(0) == 1 && Pow2(1) == 2 && Pow2(2) == 4 && Pow2(3) == 8 && Pow2(6) == 64 && Pow2(7) == 128
    ensures Pow2(10) == 1024 && Pow2(12) == 4096 && Pow2(22) == 0x40_0000 && Pow2(31) == 0x8000_0000
  {
    assert Pow2(3) == 8;
    assert Pow2(6) == 64;
    assert Pow2(9) == 512;
    assert Pow2(12) == 4096;
    assert Pow2(15) == 0x8000;
    assert Pow2(18) == 0x4_0000;
    assert Pow2(21) == 0x20_0000;
    assert Pow2(24) == 0x100_0000;
    assert Pow2(27) == 0x800_0000;
    assert Pow2(30) == 0x4000_0000;
  }

  /** PPN in bits 31 to 10, flags in bits 9 to 0. */
  function MakePte(pa: nat, flags: nat): (pte: nat)
    requires pa < U32
    ensures pte == pa / PAGE_SIZE * 1024 + flags % 1024 && pte < U32
  {
    PteBits(pa, flags);
    Or(Shl32(Shr(pa, 12), 10), And(flags, 0x3FF))
  }

  lemma PteBits(pa: nat, flags: nat)
    requires pa < U32
    ensures Or(Shl32(Shr(pa, 12), 10), And(flags, 0x3FF)) == pa / PAGE_SIZE * 1024 + flags % 1024 < U32
  {
    hide And, Or, Pow2;
    Powers();
    AndMask(flags, 10);
    OrDisjoint(pa / 4096, flags % 1024, 10);
  }

  function PtePpn(pte: nat): (ppn: nat)
    requires pte < U32
    ensures ppn == pte / 1024
  {
    PpnBits(pte);
    And(Shr(pte, 10), 0x3F_FFFF)
  }

  lemma PpnBits(pte: nat)
    requires pte < U32
    ensures And(Shr(pte, 10), 0x3F_FFFF) == pte / 1024
  {
    hide And, Pow2;
    Powers();
    AndMask(pte / 1024, 22);
  }

  /** The 32-bit address of the page: the top two bits of the PPN are shifted out. */
  function PtePa(pte: nat): (pa: nat)
    requires pte < U32
    ensures pa == pte / 1024 % 0x10_0000 * PAGE_SIZE && pa < U32 && pa % PAGE_SIZE == 0
  {
    PageOfPte(pte);
    Shl32(PtePpn(pte), 12)
  }

  lemma PageOfPte(pte: nat)
    requires pte < U32
    ensures var pa := Shl32(PtePpn(pte), 12);
      pa == pte / 1024 % 0x10_0000 * PAGE_SIZE && pa < U32 && pa % PAGE_SIZE == 0
  {
    hide And, Pow2, Shl32, PtePpn;
    PtePpnIs(pte);
    PaBits(pte / 1024);
    WholePages(pte / 1024 % 0x10_0000);
  }

  lemma PtePpnIs(pte: nat)
    requires pte < U32
    ensures PtePpn(pte) == pte / 1024
  {
    hide And, Pow2;
  }

  lemma WholePages(n: nat)
    ensures n * PAGE_SIZE % PAGE_SIZE == 0
  {
    DivModUnique(n * PAGE_SIZE, PAGE_SIZE, n, 0);
  }

  lemma PaBits(ppn: nat)
    ensures Shl32(ppn, 12) == ppn % 0x10_0000 * PAGE_SIZE < U32
  {
    hide Pow2;
    Powers();
    TimesPage(ppn);
  }

  lemma TimesPage(n: nat)
    ensures n * 4096 % U32 == n % 0x10_0000 * 4096 < U32
  {
    DivModUnique(n * 4096, U32, n / 0x10_0000, n % 0x10_0000 * 4096);
  }

  predicate PteValid(pte: nat)
    ensures PteValid(pte) <==> Bit(pte, 0)
  {
    Powers();
    AndBit(pte, 0);
    And(pte, V) != 0
  }

  predicate PteReadable(pte: nat)
    ensures PteReadable(pte) <==> Bit(pte, 1)
  {
    Powers();
    AndBit(pte, 1);
    And(pte, R) != 0
  }

  predicate PteWritable(pte: nat)
    ensures PteWritable(pte) <==> Bit(pte, 2)
  {
    Powers();
    AndBit(pte, 2);
    BitValues(pte);
    And(pte, W) != 0
  }

  predicate PteIsLeaf(pte: nat)
    ensures PteIsLeaf(pte) <==> Bit(pte, 1) || Bit(pte, 2) || Bit(pte, 3)
  {
    LeafBits(pte);
    And(pte, Or(Or(R, W), X)) != 0
  }

  lemma LeafBits(pte: nat)
    ensures And(pte, Or(Or(R, W), X)) != 0 <==> Bit(pte, 1) || Bit(pte, 2) || Bit(pte, 3)
  {
    hide And, Or, Pow2, Bit;
    RwxMask();
    LowThree(pte);
    BitValues(pte);
    ThreeBits(pte);
  }

  lemma ThreeBits(x: nat)
    ensures x / 2 % 8 != 0 <==> x / 2 % 2 == 1 || x / 4 % 2 == 1 || x / 8 % 2 == 1
  {
    var y := x / 2;
    var z := y / 2;
    var q := z / 2;
    var r := 4 * (z % 2) + 2 * (y % 2);
    DivModUnique(x, 4, z, 2 * (y % 2) + x % 2);
    DivModUnique(x, 8, q, r + x % 2);
    DivModUnique(y, 8, q / 2, 4 * (q % 2) + 2 * (z % 2) + y % 2);
  }

  lemma RwxMask()
    ensures Or(Or(R, W), X) == 14
  {
    assert Or(2, 4) == 6;
    assert Or(6, 8) == 14;
  }

  lemma LowThree(pte: nat)
    ensures And(pte, 14) != 0 <==> pte / 2 % 8 != 0
  {
    hide And, Pow2;
    AndHalf(pte, 14);
    Powers();
    AndMask(pte / 2, 3);
  }

  lemma BitValues(x: nat)
    ensures Bit(x, 0) <==> x % 2 == 1
    ensures Bit(x, 1) <==> x / 2 % 2 == 1
    ensures Bit(x, 2) <==> x / 4 % 2 == 1
    ensures Bit(x, 3) <==> x / 8 % 2 == 1
  {
    HalfDiv(x, 2);
    HalfDiv(x, 4);
    HalfDiv(x / 2, 2);
    assert Bit(x, 2) == Bit(x / 2, 1) && Bit(x, 3) == Bit(x / 2, 2);
  }

  /** The ten bits of the virtual page number of a level. */
  function VaVpn(va: nat, level: nat): (vpn: nat)
    requires va < U32 && level < 2
    ensures vpn < 1024 && vpn == if level == 0 then va / PAGE_SIZE % 1024 else va / 0x40_0000
  {
    VpnBits(va, level);
    And(Shr(va, 12 + level * VPN_BITS), 1023)
  }

  lemma VpnBits(va: nat, level: nat)
    requires va < U32 && level < 2
    ensures var vpn := And(Shr(va, 12 + level * VPN_BITS), 1023);
      vpn < 1024 && vpn == if level == 0 then va / PAGE_SIZE % 1024 else va / 0x40_0000
  {
    hide And, Pow2;
    Powers();
    AndMask(va / (if level == 0 then 4096 else 0x40_0000), 10);
  }

  function VaPgoff(va: nat): (off: nat)
    ensures off == va % PAGE_SIZE
  {
    Powers();
    AndMask(va, 12);
    And(va, 0xFFF)
  }

  /** The three fields of a virtual address determine it. */
  lemma VaFields(va: nat)
    requires va < U32
    ensures va == VaVpn(va, 1) * 0x40_0000 + VaVpn(va, 0) * PAGE_SIZE + VaPgoff(va)
  {
    hide VaVpn, VaPgoff, And, Pow2;
    var q := va / PAGE_SIZE;
    assert va / 0x40_0000 == q / 1024;
  }

  /** Mode bit 31 set, ASID zero in bits 30 to 22, PPN in bits 21 to 0. */
  function MakeSatp(pa: nat): (satp: nat)
    requires pa < U32
    ensures satp == 0x8000_0000 + pa / PAGE_SIZE
  {
    SatpBits(pa);
    Or(Shl32(1, 31), And(Shr(pa, 12), 0x3F_FFFF))
  }

  lemma SatpBits(pa: nat)
    requires pa < U32
    ensures Or(Shl32(1, 31), And(Shr(pa, 12), 0x3F_FFFF)) == 0x8000_0000 + pa / PAGE_SIZE
  {
    hide And, Or, Pow2;
    Powers();
    AndMask(pa / 4096, 22);
    OrDisjoint(1, pa / 4096, 31);
    assert Shl32(1, 31) == 1 * Pow2(31);
  }

  lemma SatpFields(p: nat)
    requires p < 0x10_0000
    ensures (0x8000_0000 + p) % 0x10_0000 == p
    ensures (0x8000_0000 + p) / 0x8000_0000 == 1 && (0x8000_0000 + p) / 0x40_0000 == 512
  {
  }

  function FromSatp(satp: nat): (pa: nat)
    ensures pa == satp % 0x10_0000 * PAGE_SIZE
  {
    SatpPa(satp);
    Shl32(And(satp, 0x3F_FFFF), 12)
  }

  lemma SatpPa(satp: nat)
    ensures Shl32(And(satp, 0x3F_FFFF), 12) == satp % 0x10_0000 * PAGE_SIZE
  {
    hide And, Pow2, Shl32;
    Powers();
    AndMask(satp, 22);
    PaBits(satp % 0x40_0000);
    TwentyBits(satp);
  }

  lemma TwentyBits(x: nat)
    ensures x % 0x40_0000 % 0x10_0000 == x % 0x10_0000
  {
    DivModUnique(x, 0x10_0000, x / 0x40_0000 * 4 + x % 0x40_0000 / 0x10_0000, x % 0x40_0000 % 0x10_0000);
  }

  /** The root of a page table survives the round trip through satp. */
  lemma SatpRoundTrip(pa: nat)
    requires pa < U32 && pa % PAGE_SIZE == 0
    ensures FromSatp(MakeSatp(pa)) == pa
    ensures MakeSatp(pa) / 0x8000_0000 == 1 && MakeSatp(pa) / 0x40_0000 % 512 == 0
  {
    hide And, Or, Pow2, MakeSatp, FromSatp;
    SatpFields(pa / PAGE_SIZE);
  }

  /** A page address and flags survive the round trip through an entry. */
  lemma PteRoundTrip(pa: nat, flags: nat, i: nat)
    requires pa < U32
    ensures PtePa(MakePte(pa, flags)) == pa - pa % PAGE_SIZE
    ensures i < 10 ==> (Bit(MakePte(pa, flags), i) <==> Bit(flags, i))
  {
    hide And, Or, Pow2, MakePte, PtePa, Bit;
    if i < 10 {
      Powers();
      LowBits(pa / 4096, flags % 1024, 10, i);
      LowBits(flags / 1024, flags % 1024, 10, i);
    }
  }

  /** The address inside a 4 MiB superpage: the page's upper bits, the offset's lower 22. */
  function SuperpagePa(pte: nat, va: nat): (pa: nat)
    requires pte < U32
    ensures pa == PtePa(pte) / 0x40_0000 * 0x40_0000 + va % 0x40_0000 && pa < U32
  {
    var x := PtePa(pte);
    SuperpageBits(x, va);
    Or(And(x, 0xFFC0_0000), And(va, 0x3F_FFFF))
  }

  lemma SuperpageBits(x: nat, va: nat)
    requires x < U32
    ensures Or(And(x, 0xFFC0_0000), And(va, 0x3F_FFFF)) == x / 0x40_0000 * 0x40_0000 + va % 0x40_0000 < U32
  {
    hide And, Or, Pow2;
    Powers();
    WordPower();
    AndHigh(x, 22);
    AndMask(va, 22);
    OrDisjoint(x / 0x40_0000, va % 0x40_0000, 22);
  }

  lemma WordPower()
    ensures Pow2(32) == U32
  {
    hide Pow2;
    Powers();
    PowSum(10, 22);
  }

  /** The address inside a 4 KiB page. */
  function PagePa(pte: nat, va: nat): (pa: nat)
    requires pte < U32
    ensures pa == PtePa(pte) + va % PAGE_SIZE && pa < U32
  {
    PageBits(PtePa(pte), va % PAGE_SIZE);
    Or(PtePa(pte), VaPgoff(va))
  }

  lemma PageBits(x: nat, o: nat)
    requires x < U32 && x % PAGE_SIZE == 0 && o < PAGE_SIZE
    ensures Or(x, o) == x + o < U32
  {
    hide Or, Pow2;
    Powers();
    OrDisjoint(x / PAGE_SIZE, o, 12);
  }

  /** The low bits of the PPN of a superpage. */
  predicate Misaligned(pte: nat)
    requires pte < U32
    ensures Misaligned(pte) <==> pte / 1024 % 1024 != 0
  {
    Powers();
    AndMask(PtePpn(pte), 10);
    And(PtePpn(pte), 1023) != 0
  }

  /** The flags of a leaf: those requested, with V, A and D set. */
  function LeafFlags(flags: nat): (f: nat)
    ensures forall i | 0 <= i < 10 :: Bit(f, i) <==> Bit(flags, i) || i == 0 || i == 6 || i == 7
  {
    LeafFlagBits(flags);
    Or(Or(Or(flags, V), A), D)
  }

  /** An entry has the requested flags, and V, A and D. */
  ghost predicate HasFlags(pte: nat, flags: nat) {
    forall i | 0 <= i < 10 :: Bit(pte, i) <==> Bit(flags, i) || i == 0 || i == 6 || i == 7
  }

  /** A valid entry for user mode (bit 4) that can be read (bit 1), written (bit 2) if w, and executed (bit 3) if x;
    accessed and dirty (bits 6 and 7) are set, the others are not. */
  ghost predicate Permits(pte: nat, w: bool, x: bool) {
    && Bit(pte, 0) && Bit(pte, 1) && (Bit(pte, 2) <==> w) && (Bit(pte, 3) <==> x) && Bit(pte, 4)
    && !Bit(pte, 5) && Bit(pte, 6) && Bit(pte, 7) && !Bit(pte, 8) && !Bit(pte, 9)
  }

  lemma FlagValues(x: nat)
    ensures (Bit(x, 1) <==> x / 2 % 2 == 1) && (Bit(x, 2) <==> x / 4 % 2 == 1) && (Bit(x, 3) <==> x / 8 % 2 == 1)
    ensures (Bit(x, 4) <==> x / 16 % 2 == 1) && (Bit(x, 5) <==> x / 32 % 2 == 1)
    ensures (Bit(x, 8) <==> x / 256 % 2 == 1) && (Bit(x, 9) <==> x / 512 % 2 == 1)
  {
    BitIs(x, 1, 2);
    BitIs(x, 2, 4);
    BitIs(x, 3, 8);
    BitIs(x, 4, 16);
    BitIs(x, 5, 32);
    BitIs(x, 8, 256);
    BitIs(x, 9, 512);
  }

  lemma {:induction false} BitIs(x: nat, i: nat, p: nat)
    requires 0 < p && p == Pow2(i)
    ensures Bit(x, i) <==> x / p % 2 == 1
    decreases i
  {
    if i > 0 {
      BitIs(x / 2, i - 1, p / 2);
      HalfDiv(x, p / 2);
    }
  }

  lemma LeafFlagBits(flags: nat)
    ensures forall i | 0 <= i < 10 :: Bit(Or(Or(Or(flags, V), A), D), i) <==> Bit(flags, i) || i == 0 || i == 6 || i == 7
  {
    hide Or, Bit;
    forall i | 0 <= i < 10 ensures Bit(Or(Or(Or(flags, V), A), D), i) <==> Bit(flags, i) || i == 0 || i == 6 || i == 7 {
      OrBits(Or(Or(flags, V), A), D, i);
      OrBits(Or(flags, V), A, i);
      OrBits(flags, V, i);
      ConstantBits(i);
    }
  }

  lemma ConstantBits(i: nat)
    requires i < 10
    ensures Bit(V, i) <==> i == 0
    ensures Bit(A, i) <==> i == 6
    ensures Bit(D, i) <==> i == 7
  {
    Powers();
    PowerBit(0, i);
    PowerBit(6, i);
    PowerBit(7, i);
  }

  /** A power of two has one bit. */
  lemma {:induction false} PowerBit(k: nat, i: nat)
    ensures Bit(Pow2(k), i) <==> i == k
  {
    if i == 0 {
    } else if k == 0 {
      ZeroBits(i - 1);
    } else {
      PowerBit(k - 1, i - 1);
    }
  }
}
