/** The allocator used for page frames only: every request has the size of a page. */
module FrameAllocation {
  import opened Arith
  import opened Intervals
  import opened Memory
  import opened AllocatorSpec
  import opened Bits
  import opened Sums64

  ghost predicate FrameConfig(c: Config) {
    && c.Ok() && PAGE_SIZE % c.blockAlign == 0 && c.pageAlign % PAGE_SIZE == 0
    && c.base % PAGE_SIZE == 0 && 0 < c.base && c.Limit() <= 0x1_0000_0000 && c.pageAlign <= c.capacity
  }

  ghost predicate PageAligned(c: Config, p: PageV) {
    p.addr % PAGE_SIZE == 0 && p.size == c.pageAlign && forall u <- p.used :: u % PAGE_SIZE == 0 && p.used[u] == PAGE_SIZE
  }

  ghost predicate Aligned(c: Config, ps: Pages) {
    forall i | 0 <= i < |ps| :: PageAligned(c, ps[i])
  }

  /** A state that frame-sized requests lead to. */
  ghost predicate FrameState(c: Config, ps: Pages) {
    PagesOk(c, ps) && Within(c, ps) && Aligned(c, ps)
  }

  lemma AlignUpFrame(c: Config)
    requires FrameConfig(c)
    ensures AlignUp(PAGE_SIZE, c.blockAlign) == PAGE_SIZE && AlignUp(PAGE_SIZE, c.pageAlign) == c.pageAlign
  {
    AlignUpExact(PAGE_SIZE, c.blockAlign);
    var r := AlignUp(PAGE_SIZE, c.pageAlign);
    hide AlignUp;
    if c.pageAlign < r {
      ModDiff(r, c.pageAlign, c.pageAlign);
    }
    OneMultiple(r, c.pageAlign);
  }

  /** The sums of a frame-sized request fit 64 bits. */
  lemma FrameSound(c: Config, ps: Pages)
    requires FrameConfig(c) && FrameState(c, ps)
    ensures PAGE_SIZE <= U64 - c.pageAlign && Sound(c, ps, PAGE_SIZE)
  {
    hide PageOk, AlignUp, NoFit, SearchFrom, SearchFrom64, Aligned;
    AlignUpFrame(c);
    if ps != [] {
      SmallSearch(c, ps, 0, c.base, c.pageAlign);
    }
  }

  lemma OneMultiple(r: nat, p: nat)
    requires 0 < p && 0 < r && r % p == 0 && r <= p
    ensures r == p
  {
  }

  lemma GapAligned(c: Config, p: PageV, a: nat, m: nat, n: nat)
    requires PageAligned(c, p) && Gap(p, a, m) && n == PAGE_SIZE
    ensures a % PAGE_SIZE == 0 && PageAligned(c, Use(p, a, n))
  {
    if a != p.addr {
      var u :| u in p.used && u + p.used[u] == a;
    }
  }

  /** The lowest gap starts at the base or at the end of a page. */
  lemma LowestGapStart(c: Config, ps: Pages, n: nat, x: nat)
    requires LowestGap(c, ps, n, x) && x != c.base && 0 < n
    ensures exists i :: 0 <= i < |ps| && ps[i].End() == x
  {
    assert !Clear(ps, x - 1, n);
    var i :| 0 <= i < |ps| && !(x - 1 + n <= ps[i].addr || ps[i].End() <= x - 1);
    assert Clear(ps, x, n);
  }

  lemma AllocateAligned(c: Config, ps: Pages, a: nat, ps': Pages)
    requires FrameConfig(c) && Aligned(c, ps) && Allocates(c, ps, PAGE_SIZE, a, ps')
    ensures Aligned(c, ps') && a % PAGE_SIZE == 0
  {
    hide PageOk, AlignUp, NoFit, Clear;
    AlignUpFrame(c);
    if i: nat :| TakenFrom(ps, PAGE_SIZE, a, ps', i) {
      var m: nat :| Gap(ps[i], a, m);
      GapAligned(c, ps[i], a, m, PAGE_SIZE);
    } else {
      var k: nat :| TakenNew(c, ps, PAGE_SIZE, c.pageAlign, a, ps', k);
      hide LowestGap;
      NewPageAligned(c, ps, a, k);
    }
  }

  lemma NewStart(c: Config, ps: Pages, a: nat)
    requires FrameConfig(c) && Aligned(c, ps) && if ps == [] then a == c.base else LowestGap(c, ps, c.pageAlign, a)
    ensures a % PAGE_SIZE == 0
  {
    hide LowestGap, FrameConfig, PageAligned;
    BaseAligned(c);
    if a != c.base {
      LowestGapStart(c, ps, c.pageAlign, a);
      var i :| 0 <= i < |ps| && ps[i].End() == a;
      EndAligned(c, ps[i]);
    }
  }

  lemma BaseAligned(c: Config)
    requires FrameConfig(c)
    ensures c.base % PAGE_SIZE == 0 && 0 < c.pageAlign
  {
  }

  lemma EndAligned(c: Config, p: PageV)
    requires FrameConfig(c) && PageAligned(c, p)
    ensures p.End() % PAGE_SIZE == 0
  {
  }

  lemma NewPageAligned(c: Config, ps: Pages, a: nat, k: nat)
    requires FrameConfig(c) && Aligned(c, ps) && k <= |ps|
    requires if ps == [] then a == c.base else LowestGap(c, ps, c.pageAlign, a)
    ensures a % PAGE_SIZE == 0 && Aligned(c, InsertAt(ps, k, PageV(a, c.pageAlign, map[a := PAGE_SIZE])))
  {
    hide LowestGap;
    NewStart(c, ps, a);
    var q := PageV(a, c.pageAlign, map[a := PAGE_SIZE]);
    var qs := InsertAt(ps, k, q);
    assert forall j | 0 <= j < |qs| :: qs[j] == if j < k then ps[j] else if j == k then q else ps[j - 1];
  }

  /** A frame-sized allocation yields an aligned frame inside the memory that was not in use. */
  lemma AllocateFrame(c: Config, ps: Pages, a: nat, ps': Pages)
    requires FrameConfig(c) && FrameState(c, ps) && Allocates(c, ps, PAGE_SIZE, a, ps')
    ensures FrameState(c, ps') && a % PAGE_SIZE == 0 && c.base <= a && a + PAGE_SIZE <= c.Limit()
    ensures a !in Frames(ps) && Frames(ps') == Frames(ps) + {a} && Without(ps', {a}) == ps
  {
    hide PagesOk, Within, Aligned, Allocates, Frames, Without, AlignUp;
    AlignUpFrame(c);
    AllocateKeeps(c, ps, PAGE_SIZE, a, ps');
    AllocateWithin(c, ps, PAGE_SIZE, a, ps');
    AllocateAligned(c, ps, a, ps');
  }

  lemma {:induction false} DropAligned(c: Config, ps: Pages, A: set<nat>)
    requires Aligned(c, ps)
    ensures Aligned(c, Without(ps, A))
  {
    if ps != [] {
      assert PageAligned(c, ps[0]);
      assert forall i | 0 <= i < |ps[1..]| :: ps[1..][i] == ps[i + 1];
      DropAligned(c, ps[1..], A);
    }
  }

  lemma ReleaseFrames(c: Config, ps: Pages, A: set<nat>)
    requires FrameState(c, ps)
    ensures FrameState(c, Without(ps, A)) && Frames(Without(ps, A)) == Frames(ps) - A
  {
    hide PagesOk, Within, Aligned, Frames, Without;
    ReleaseKeeps(c, ps, A);
    ReleaseWithin(c, ps, A);
    DropAligned(c, ps, A);
  }

  // ---- pages of one frame ----

  ghost predicate FrameAt(c: Config, f: nat) {
    f % PAGE_SIZE == 0 && c.base <= f && f + PAGE_SIZE <= c.Limit()
  }

  /** A page of one frame is that frame, and has no room. */
  lemma OneFrame(c: Config, p: PageV)
    requires FrameConfig(c) && c.pageAlign == PAGE_SIZE && PageOk(c, p) && PageAligned(c, p)
    ensures p.addr in p.used && NoFit(p, PAGE_SIZE)
  {
    var u: nat :| u in p.used;
    forall a: nat, m: nat | Gap(p, a, m) ensures m < PAGE_SIZE {
      assert u + p.used[u] <= a || a + m <= u;
    }
  }

  /** A frame that meets a page of one frame is that page's. */
  lemma MeetsFrame(c: Config, ps: Pages, f: nat)
    requires FrameConfig(c) && c.pageAlign == PAGE_SIZE && FrameState(c, ps) && f % PAGE_SIZE == 0 && !Clear(ps, f, PAGE_SIZE)
    ensures f in Frames(ps)
  {
    hide FrameConfig, PageOk, PageAligned, NoFit;
    var i :| 0 <= i < |ps| && !(f + PAGE_SIZE <= ps[i].addr || ps[i].End() <= f);
    OneFrame(c, ps[i]);
    PageStart(c, ps[i]);
    assert f == ps[i].addr;
    FramesIn(ps, f);
  }

  lemma PageStart(c: Config, p: PageV)
    requires c.pageAlign == PAGE_SIZE && PageAligned(c, p)
    ensures p.addr % PAGE_SIZE == 0 && p.End() == p.addr + PAGE_SIZE
  {
  }

  /** With pages of one frame the lowest frame that is not in use is served. */
  lemma LowestFrame(c: Config, ps: Pages, a: nat, ps': Pages, g: nat)
    requires FrameConfig(c) && c.pageAlign == PAGE_SIZE && FrameState(c, ps) && Allocates(c, ps, PAGE_SIZE, a, ps')
    requires FrameAt(c, g) && g < a
    ensures g in Frames(ps)
  {
    hide PageOk, AlignUp, NoFit, Clear, FrameConfig, Within, PageAligned, BestFit;
    AlignUpFrame(c);
    BaseAligned(c);
    if i: nat :| TakenFrom(ps, PAGE_SIZE, a, ps', i) {
      OneFrame(c, ps[i]);
      NoBestFit(ps[i], PAGE_SIZE, a);
    } else {
      var k: nat :| TakenNew(c, ps, PAGE_SIZE, c.pageAlign, a, ps', k);
      MeetsFrame(c, ps, g);
    }
  }

  lemma NoBestFit(p: PageV, n: nat, a: nat)
    requires NoFit(p, n)
    ensures !BestFit(p, n, a)
  {
    hide IsHole;
  }

  /** With pages of one frame a request fails exactly when every frame is in use. */
  lemma ExhaustedFrames(c: Config, ps: Pages)
    requires FrameConfig(c) && c.pageAlign == PAGE_SIZE && FrameState(c, ps) && Exhausted(c, ps, PAGE_SIZE)
    ensures forall f: nat | FrameAt(c, f) :: f in Frames(ps)
  {
    hide PageOk, AlignUp, NoFit, Clear, FrameConfig, Within, PageAligned;
    AlignUpFrame(c);
    forall f: nat | FrameAt(c, f) ensures f in Frames(ps) {
      MeetsFrame(c, ps, f);
    }
  }
}
