/** What copies between host and device do, byte by byte, through a page table. */
module Copies {
  import opened Base
  import opened Bits
  import opened Memory
  import opened Sv32
  import opened Translation
  import opened PageTables
  import opened Mappings

  /** The virtual address i bytes after va, around the end of the address space. */
  function After(va: nat, i: nat): (x: nat)
    ensures x < U32
  {
    (va + i) % U32
  }

  /** n bytes from va on are mapped by the page table of r. */
  ghost predicate MappedBytes(m: Mem, r: nat, va: nat, n: nat)
    requires IsFrame(r)
  {
    forall i | 0 <= i < n :: Walk(m, r, After(va, i)).Pa?
  }

  ghost function PaOf(m: Mem, r: nat, va: nat, i: nat): nat
    requires IsFrame(r) && Walk(m, r, After(va, i)).Pa?
  {
    Walk(m, r, After(va, i)).pa
  }

  ghost predicate AllInside(m: Mem, r: nat, va: nat, n: nat)
    requires IsFrame(r)
  {
    MappedBytes(m, r, va, n) && forall i | 0 <= i < n :: PaOf(m, r, va, i) < U32
  }

  /** Device memory d after the bytes were stored one by one where the page table of r maps va, va + 1, and so on. */
  ghost function Placed(m: Mem, d: Mem, r: nat, va: nat, content: seq<byte>): Mem
    requires IsFrame(r) && AllInside(m, r, va, |content|)
    decreases |content|
  {
    if content == [] then d else
      var n := |content| - 1;
      Written(Placed(m, d, r, va, content[..n]), PaOf(m, r, va, n), [content[n]])
  }

  /** The n bytes that the page table of r maps va, va + 1, and so on to. */
  ghost function Fetched(m: Mem, d: Mem, r: nat, va: nat, n: nat): (content: seq<byte>)
    requires IsFrame(r) && AllInside(m, r, va, n)
    ensures |content| == n && forall i | 0 <= i < n :: content[i] == At(d, PaOf(m, r, va, i))
  {
    seq(n, i requires 0 <= i < n => At(d, PaOf(m, r, va, i)))
  }

  /** No two of the bytes have the same place. */
  ghost predicate PlacesApart(m: Mem, r: nat, va: nat, n: nat)
    requires IsFrame(r) && AllInside(m, r, va, n)
  {
    forall i, j | 0 <= i < j < n :: PaOf(m, r, va, i) != PaOf(m, r, va, j)
  }

  lemma {:induction false} PlacedAt(m: Mem, d: Mem, r: nat, va: nat, content: seq<byte>, i: nat)
    requires IsFrame(r) && AllInside(m, r, va, |content|) && i < |content| && PlacesApart(m, r, va, |content|)
    ensures At(Placed(m, d, r, va, content), PaOf(m, r, va, i)) == content[i]
    decreases |content|
  {
    hide Walk, IsFrame, PaOf;
    var n := |content| - 1;
    if i < n {
      assert forall k | 0 <= k < n :: content[..n][k] == content[k];
      PlacedAt(m, d, r, va, content[..n], i);
    }
  }

  /** Nothing else is stored. */
  lemma {:induction false} PlacedElsewhere(m: Mem, d: Mem, r: nat, va: nat, content: seq<byte>, a: nat)
    requires IsFrame(r) && AllInside(m, r, va, |content|) && a < U32
    requires forall i | 0 <= i < |content| :: PaOf(m, r, va, i) != a
    ensures At(Placed(m, d, r, va, content), a) == At(d, a)
    decreases |content|
  {
    hide Walk, IsFrame, PaOf;
    if content != [] {
      PlacedElsewhere(m, d, r, va, content[..|content| - 1], a);
    }
  }

  lemma RoundTrip(m: Mem, d: Mem, r: nat, va: nat, content: seq<byte>)
    requires IsFrame(r) && AllInside(m, r, va, |content|) && PlacesApart(m, r, va, |content|)
    ensures Fetched(m, Placed(m, d, r, va, content), r, va, |content|) == content
  {
    hide Walk, IsFrame, PaOf, Placed;
    var back := Fetched(m, Placed(m, d, r, va, content), r, va, |content|);
    forall i | 0 <= i < |content| ensures back[i] == content[i] {
      PlacedAt(m, d, r, va, content, i);
    }
  }

  // ---- frames of page tables ----

  /** Every page of the range is mapped to a frame that the page table owns. */
  ghost predicate OwnPages(l: Layout, m: Mem, r: nat, va: nat, n: nat)
    requires IsFrame(r)
  {
    forall i | 0 <= i < n :: var t := Target(m, r, After(va, i) / PAGE_SIZE); t.Some? && Counted(l, t.value)
  }

  lemma ByteTarget(l: Layout, s: Space, r: nat, va: nat, i: nat)
    requires Inv(l, s) && IsRoot(s, r) && IsFrame(r) && Target(s.mem, r, After(va, i) / PAGE_SIZE).Some?
    ensures Walk(s.mem, r, After(va, i)).Pa?
    ensures PaOf(s.mem, r, va, i) == Target(s.mem, r, After(va, i) / PAGE_SIZE).value + After(va, i) % PAGE_SIZE < U32
    ensures IsFrame(Target(s.mem, r, After(va, i) / PAGE_SIZE).value)
  {
    hide Inv, Walk, IsRoot, Entry, PtePa, After, IsFrame;
    WalkIsTarget(l, s, r, After(va, i));
    TargetIsFrame(s.mem, r, After(va, i) / PAGE_SIZE);
  }

  /** A mapped byte has a target. */
  lemma MappedTarget(l: Layout, s: Space, r: nat, va: nat, i: nat)
    requires Inv(l, s) && IsRoot(s, r) && IsFrame(r) && Walk(s.mem, r, After(va, i)).Pa?
    ensures Target(s.mem, r, After(va, i) / PAGE_SIZE).Some?
  {
    hide Inv, Walk, IsRoot, Entry, PtePa, IsFrame;
    WalkIsTarget(l, s, r, After(va, i));
  }

  lemma OwnMapped(l: Layout, s: Space, r: nat, va: nat, n: nat)
    requires Inv(l, s) && IsRoot(s, r) && IsFrame(r) && OwnPages(l, s.mem, r, va, n)
    ensures MappedBytes(s.mem, r, va, n)
  {
    hide Inv, Walk, IsRoot, Entry, PtePa, After, IsFrame, PaOf;
    forall i | 0 <= i < n ensures Walk(s.mem, r, After(va, i)).Pa? {
      ByteTarget(l, s, r, va, i);
    }
  }

  lemma MappedInside(l: Layout, s: Space, r: nat, va: nat, n: nat)
    requires Inv(l, s) && IsRoot(s, r) && IsFrame(r) && MappedBytes(s.mem, r, va, n)
    ensures AllInside(s.mem, r, va, n)
  {
    hide Inv, Walk, IsRoot, Entry, PtePa, After, IsFrame, PaOf;
    forall i | 0 <= i < n ensures Walk(s.mem, r, After(va, i)).Pa? && PaOf(s.mem, r, va, i) < U32 {
      MappedTarget(l, s, r, va, i);
      ByteTarget(l, s, r, va, i);
    }
  }

  lemma SamePlace(f: nat, o: nat, g: nat, u: nat)
    requires f % PAGE_SIZE == 0 && g % PAGE_SIZE == 0 && o < PAGE_SIZE && u < PAGE_SIZE && f + o == g + u
    ensures f == g && o == u
  {
  }

  /** Two bytes that share a place are the same byte, unless two page tables both map it to itself. */
  lemma BytesApart(l: Layout, s: Space, r: nat, va: nat, i: nat, q: nat, vb: nat, j: nat)
    requires Inv(l, s) && IsRoot(s, r) && IsRoot(s, q) && IsFrame(r) && IsFrame(q)
    requires Walk(s.mem, r, After(va, i)).Pa? && Walk(s.mem, q, After(vb, j)).Pa?
    requires PaOf(s.mem, r, va, i) == PaOf(s.mem, q, vb, j)
    requires r != q ==> Walk(s.mem, q, After(vb, j)) != Pa(After(vb, j)) || Walk(s.mem, r, After(va, i)) != Pa(After(va, i))
    ensures r == q && After(va, i) == After(vb, j)
  {
    hide Inv, Walk, IsRoot, Entry, PtePa, After, IsFrame, Counted;
    var x, y := After(va, i), After(vb, j);
    MappedTarget(l, s, r, va, i);
    MappedTarget(l, s, q, vb, j);
    ByteTarget(l, s, r, va, i);
    ByteTarget(l, s, q, vb, j);
    TargetIsFrame(s.mem, r, x / PAGE_SIZE);
    TargetIsFrame(s.mem, q, y / PAGE_SIZE);
    SamePlace(Target(s.mem, r, x / PAGE_SIZE).value, x % PAGE_SIZE, Target(s.mem, q, y / PAGE_SIZE).value, y % PAGE_SIZE);
    SameTarget(l, s, r, x, q, y);
    assert x == x / PAGE_SIZE * PAGE_SIZE + x % PAGE_SIZE && y == y / PAGE_SIZE * PAGE_SIZE + y % PAGE_SIZE;
  }

  lemma SameTarget(l: Layout, s: Space, r: nat, x: nat, q: nat, y: nat)
    requires Inv(l, s) && IsRoot(s, r) && IsRoot(s, q) && IsFrame(r) && IsFrame(q) && x < U32 && y < U32
    requires Target(s.mem, r, x / PAGE_SIZE).Some? && Target(s.mem, r, x / PAGE_SIZE) == Target(s.mem, q, y / PAGE_SIZE)
    requires r != q ==> Walk(s.mem, q, y) != Pa(y) || Walk(s.mem, r, x) != Pa(x)
    ensures r == q && x / PAGE_SIZE == y / PAGE_SIZE
  {
    hide Inv, Walk, IsRoot, Entry, PtePa, IsFrame, Counted;
    var p, o := x / PAGE_SIZE, y / PAGE_SIZE;
    if Counted(l, Target(s.mem, r, p).value) {
      OneOwner(l, s, r, p, q, o);
    } else {
      UncountedIsSelf(l, s, r, p);
      UncountedIsSelf(l, s, q, o);
      WalkIsTarget(l, s, r, x);
      WalkIsTarget(l, s, q, y);
      assert x == p * PAGE_SIZE + x % PAGE_SIZE && y == o * PAGE_SIZE + y % PAGE_SIZE;
    }
  }

  lemma AfterApart(va: nat, i: nat, j: nat)
    requires i < j < U32
    ensures After(va, i) != After(va, j)
  {
    ModApart(va + i, va + j);
  }

  /** A range that is mapped is shorter than the address space, because some page is not mapped. */
  lemma MappedIsShort(l: Layout, s: Space, r: nat, va: nat, n: nat)
    requires Inv(l, s) && IsRoot(s, r) && IsFrame(r) && MappedBytes(s.mem, r, va, n)
    ensures n < U32
  {
    hide Inv, Walk, IsRoot, Entry, PtePa, IsFrame, After;
    if U32 <= n {
      SomePageUnmapped(l, s, r);
      var p :| 0 <= p < PAGES && Target(s.mem, r, p) == None;
      var i := Reaches(va, p);
      MappedTarget(l, s, r, va, i);
      assert false;
    }
  }

  lemma Reaches(va: nat, p: nat) returns (i: nat)
    requires p < PAGES
    ensures i < U32 && After(va, i) / PAGE_SIZE == p
  {
    var a := p * PAGE_SIZE;
    i := if va % U32 <= a then a - va % U32 else a + U32 - va % U32;
    DivModUnique(va + i, U32, va / U32 + (if va % U32 <= a then 0 else 1), a);
  }

  lemma MappedApart(l: Layout, s: Space, r: nat, va: nat, n: nat)
    requires Inv(l, s) && IsRoot(s, r) && IsFrame(r) && MappedBytes(s.mem, r, va, n)
    ensures AllInside(s.mem, r, va, n) && PlacesApart(s.mem, r, va, n)
  {
    hide Inv, Walk, IsRoot, Entry, PtePa, After, IsFrame, PaOf;
    MappedInside(l, s, r, va, n);
    MappedIsShort(l, s, r, va, n);
    forall i, j | 0 <= i < j < n ensures PaOf(s.mem, r, va, i) != PaOf(s.mem, r, va, j) {
      AfterApart(va, i, j);
      if PaOf(s.mem, r, va, i) == PaOf(s.mem, r, va, j) {
        BytesApart(l, s, r, va, i, r, va, j);
      }
    }
  }

  /** Upload, then download: over every mapped range, of any length and on any frames, the bytes come back. */
  lemma UploadDownload(l: Layout, s: Space, d: Mem, r: nat, va: nat, content: seq<byte>)
    requires Inv(l, s) && IsRoot(s, r) && IsFrame(r) && MappedBytes(s.mem, r, va, |content|)
    ensures AllInside(s.mem, r, va, |content|)
    ensures Fetched(s.mem, Placed(s.mem, d, r, va, content), r, va, |content|) == content
  {
    hide Inv, Walk, IsRoot, Entry, PtePa, IsFrame, PaOf, Placed, Fetched, PlacesApart, AllInside, MappedBytes;
    MappedApart(l, s, r, va, |content|);
    RoundTrip(s.mem, d, r, va, content);
  }

  /** An upload through the page table of r changes no byte that another page table maps, unless both map it to itself. */
  lemma UploadIsolated(l: Layout, s: Space, d: Mem, r: nat, va: nat, content: seq<byte>, q: nat, vb: nat)
    requires Inv(l, s) && IsRoot(s, r) && IsRoot(s, q) && IsFrame(r) && IsFrame(q) && r != q && vb < U32
    requires MappedBytes(s.mem, r, va, |content|) && Walk(s.mem, q, vb).Pa?
    requires Walk(s.mem, q, vb) != Pa(vb) || forall i | 0 <= i < |content| :: Walk(s.mem, r, After(va, i)) != Pa(After(va, i))
    ensures AllInside(s.mem, r, va, |content|) && Walk(s.mem, q, vb).pa < U32
    ensures At(Placed(s.mem, d, r, va, content), Walk(s.mem, q, vb).pa) == At(d, Walk(s.mem, q, vb).pa)
  {
    hide Inv, Walk, IsRoot, Entry, PtePa, IsFrame, Placed, Counted;
    MappedInside(l, s, r, va, |content|);
    assert After(vb, 0) == vb;
    MappedTarget(l, s, q, vb, 0);
    ByteTarget(l, s, q, vb, 0);
    forall i | 0 <= i < |content| ensures PaOf(s.mem, r, va, i) != PaOf(s.mem, q, vb, 0) {
      if PaOf(s.mem, r, va, i) == PaOf(s.mem, q, vb, 0) {
        BytesApart(l, s, r, va, i, q, vb, 0);
      }
    }
    PlacedElsewhere(s.mem, d, r, va, content, PaOf(s.mem, q, vb, 0));
  }

  // ---- chunks ----

  /** A chunk that stays inside the page of its first byte lies in one piece on the device. */
  lemma ChunkByte(l: Layout, s: Space, r: nat, va: nat, o: nat, i: nat)
    requires Inv(l, s) && IsRoot(s, r) && IsFrame(r) && After(va, o) % PAGE_SIZE + i < PAGE_SIZE
    ensures After(va, o + i) == After(va, o) + i
    ensures match Walk(s.mem, r, After(va, o))
      case Pa(pa) => pa + i < U32 && Walk(s.mem, r, After(va, o + i)) == Pa(pa + i)
      case Fault(_) => true
  {
    hide Inv, Walk, IsRoot, Entry, PtePa, IsFrame;
    SamePageAfter(va, o, i);
    WalkIsTarget(l, s, r, After(va, o));
    WalkIsTarget(l, s, r, After(va, o + i));
    if Target(s.mem, r, After(va, o) / PAGE_SIZE).Some? {
      TargetIsFrame(s.mem, r, After(va, o) / PAGE_SIZE);
    }
  }

  lemma SamePageAfter(va: nat, o: nat, i: nat)
    requires After(va, o) % PAGE_SIZE + i < PAGE_SIZE
    ensures After(va, o + i) == After(va, o) + i
    ensures After(va, o + i) / PAGE_SIZE == After(va, o) / PAGE_SIZE
    ensures After(va, o + i) % PAGE_SIZE == After(va, o) % PAGE_SIZE + i
  {
    var x, q := After(va, o), (va + o) / U32;
    assert x / PAGE_SIZE * PAGE_SIZE + x % PAGE_SIZE == x;
    DivModUnique(va + (o + i), U32, q, x + i);
    DivModUnique(x + i, PAGE_SIZE, x / PAGE_SIZE, x % PAGE_SIZE + i);
  }

  ghost predicate ChunkOk(m: Mem, r: nat, va: nat, o: nat, c: nat, pa: nat)
    requires IsFrame(r)
  {
    pa + c <= U32 && forall k | o <= k < o + c :: Walk(m, r, After(va, k)) == Pa(pa + k - o)
  }

  lemma ChunkIsOk(l: Layout, s: Space, r: nat, va: nat, o: nat, c: nat, pa: nat)
    requires Inv(l, s) && IsRoot(s, r) && IsFrame(r) && 0 < c && After(va, o) % PAGE_SIZE + c <= PAGE_SIZE
    requires Walk(s.mem, r, After(va, o)) == Pa(pa)
    ensures ChunkOk(s.mem, r, va, o, c, pa)
  {
    hide Inv, Walk, IsRoot, After, IsFrame;
    forall k | o <= k < o + c ensures Walk(s.mem, r, After(va, k)) == Pa(pa + k - o) {
      ChunkByte(l, s, r, va, o, k - o);
    }
    ChunkByte(l, s, r, va, o, c - 1);
  }

  lemma ChunkInside(m: Mem, r: nat, va: nat, o: nat, c: nat, pa: nat)
    requires IsFrame(r) && AllInside(m, r, va, o) && ChunkOk(m, r, va, o, c, pa)
    ensures AllInside(m, r, va, o + c)
  {
    hide Walk, After, IsFrame;
    forall i | 0 <= i < o + c ensures Walk(m, r, After(va, i)).Pa? && PaOf(m, r, va, i) < U32 {
      assert i >= o ==> Walk(m, r, After(va, i)) == Pa(pa + i - o);
    }
  }

  /** Storing a chunk in one piece is storing its bytes one by one. */
  lemma {:induction false} ChunkPlaced(m: Mem, d: Mem, r: nat, va: nat, content: seq<byte>, o: nat, c: nat, pa: nat)
    requires IsFrame(r) && o + c <= |content| && AllInside(m, r, va, o) && ChunkOk(m, r, va, o, c, pa)
    ensures AllInside(m, r, va, o + c)
    ensures Placed(m, d, r, va, content[..o + c]) == Written(Placed(m, d, r, va, content[..o]), pa, content[o..o + c])
    decreases c
  {
    hide Walk, After, IsFrame, AllInside, Written;
    ChunkInside(m, r, va, o, c, pa);
    if c == 0 {
      assert content[..o + c] == content[..o] && content[o..o + c] == [];
      WrittenNothing(Placed(m, d, r, va, content[..o]), pa);
    } else {
      var n := o + c - 1;
      ChunkInside(m, r, va, o, c - 1, pa);
      ChunkPlaced(m, d, r, va, content, o, c - 1, pa);
      assert content[..o + c][..n] == content[..n] && content[..o + c][n] == content[n];
      assert Walk(m, r, After(va, n)) == Pa(pa + n - o);
      WrittenStep(Placed(m, d, r, va, content[..o]), pa, content[o..o + c], c - 1);
      assert content[o..o + c][..c - 1] == content[o..n] && content[o..o + c][..c] == content[o..o + c];
    }
  }

  /** Reading a chunk in one piece is reading its bytes one by one. */
  lemma ChunkFetched(m: Mem, d: Mem, r: nat, va: nat, o: nat, c: nat, pa: nat)
    requires IsFrame(r) && AllInside(m, r, va, o) && ChunkOk(m, r, va, o, c, pa)
    ensures AllInside(m, r, va, o + c) && Fetched(m, d, r, va, o + c) == Fetched(m, d, r, va, o) + Bytes(d, pa, c)
  {
    hide Walk, After, IsFrame, AllInside, At;
    ChunkInside(m, r, va, o, c, pa);
    var x, y := Fetched(m, d, r, va, o + c), Fetched(m, d, r, va, o) + Bytes(d, pa, c);
    forall i | 0 <= i < o + c ensures x[i] == y[i] {
      assert i >= o ==> Walk(m, r, After(va, i)) == Pa(pa + i - o);
    }
  }
}
