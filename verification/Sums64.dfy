/** The sums of the page allocator as the program computes them, modulo 2^64, and when they are right. */
module Sums64 {
  import opened Arith
  import opened Base
  import opened AllocatorSpec
  import opened Bits

  /** Every page ends below 2^64. */
  ghost predicate Bounded(ps: Pages) {
    forall i | 0 <= i < |ps| :: ps[i].End() < U64
  }

  /** What the allocator's state satisfies between any two operations. */
  ghost predicate StateOk(c: Config, ps: Pages) {
    PagesOk(c, ps) && Above(c, ps) && Bounded(ps)
  }

  // ---- rounding ----

  /** Rounds up to a multiple of a power of two, with a sum of 64 bits. */
  function AlignSize(size: nat, a: nat): nat
    requires 0 < a
  {
    DivNat((size + a - 1) % U64, a);
    var q := (size + a - 1) % U64 / a;
    q * a
  }

  lemma DivNat(x: nat, a: nat)
    requires 0 < a
    ensures 0 <= x / a * a <= x && 0 <= x / a
  {
  }

  lemma AlignUpLeast(n: nat, a: nat, m: nat)
    requires 0 < a && n <= m && m % a == 0
    ensures AlignUp(n, a) <= m
  {
    var r := AlignUp(n, a);
    if m < r {
      ModDiff(r, m, a);
    }
  }

  lemma AlignSizeIs(size: nat, a: nat)
    requires 0 < a && size + a - 1 < U64
    ensures AlignSize(size, a) == AlignUp(size, a)
  {
    SmallSum(size + a - 1);
    AlignUpQuotient(size, a);
  }

  lemma AlignUpQuotient(n: nat, a: nat)
    requires 0 < a
    ensures AlignUp(n, a) == (n + a - 1) / a * a
  {
  }

  /** Up to a page below 2^64, neither rounding wraps. */
  lemma Roundings(c: Config, size: nat)
    requires c.Ok() && size <= U64 - c.pageAlign
    ensures c.blockAlign <= c.pageAlign && AlignSize(size, c.blockAlign) == AlignUp(size, c.blockAlign)
    ensures AlignSize(size, c.pageAlign) == AlignUp(size, c.pageAlign) <= U64 - c.pageAlign
    ensures var n := AlignUp(size, c.blockAlign); AlignSize(n, c.pageAlign) == AlignUp(n, c.pageAlign) <= U64 - c.pageAlign
  {
    hide AlignSize, AlignUp;
    var m := U64 - c.pageAlign;
    BlockBelowPage(c);
    MultipleTrans(m, c.pageAlign, c.blockAlign);
    AlignUpLeast(size, c.blockAlign, m);
    AlignUpLeast(size, c.pageAlign, m);
    AlignUpLeast(AlignUp(size, c.blockAlign), c.pageAlign, m);
    AlignSizeIs(size, c.blockAlign);
    AlignSizeIs(size, c.pageAlign);
    AlignSizeIs(AlignUp(size, c.blockAlign), c.pageAlign);
  }

  lemma BlockBelowPage(c: Config)
    requires c.Ok()
    ensures c.blockAlign <= c.pageAlign && (U64 - c.pageAlign) % c.pageAlign == 0
  {
    ModDiff(c.pageAlign, 0, c.blockAlign);
    LessOne(U64, c.pageAlign);
  }

  lemma LessOne(w: nat, p: nat)
    requires 0 < p < w && w % p == 0
    ensures (w - p) % p == 0
  {
    ModDiff(w, p, p);
  }

  // ---- the search for a new page's address ----

  /** The search from page i on, where e is the end of the page before. */
  function SearchFrom64(c: Config, ps: Pages, i: nat, e: nat, s: nat): Option<nat>
    requires i <= |ps|
    decreases |ps| - i
  {
    if i == |ps| then (if (e + s) % U64 <= (c.base + c.capacity) % U64 then Some(e) else None)
    else if (e + s) % U64 <= ps[i].addr then Some(e)
    else SearchFrom64(c, ps, i + 1, (ps[i].addr + ps[i].size) % U64, s)
  }

  /** The same search with unbounded sums. */
  function SearchFrom(c: Config, ps: Pages, i: nat, e: nat, s: nat): Option<nat>
    requires i <= |ps|
    decreases |ps| - i
  {
    if i == |ps| then (if e + s <= c.Limit() then Some(e) else None)
    else if e + s <= ps[i].addr then Some(e)
    else SearchFrom(c, ps, i + 1, ps[i].End(), s)
  }

  /** With no page yet, the base is returned unchecked. */
  function Search64(c: Config, ps: Pages, s: nat): Option<nat> {
    if ps == [] then Some(c.base) else SearchFrom64(c, ps, 0, c.base, s)
  }

  function Search(c: Config, ps: Pages, s: nat): Option<nat> {
    if ps == [] then Some(c.base) else SearchFrom(c, ps, 0, c.base, s)
  }

  lemma SearchStarts(c: Config, ps: Pages, s: nat)
    ensures Search64(c, ps, s) == if ps == [] then Some(c.base) else SearchFrom64(c, ps, 0, c.base, s)
  {
  }

  lemma SearchStep(c: Config, ps: Pages, i: nat, e: nat, s: nat)
    requires i <= |ps|
    ensures SearchFrom64(c, ps, i, e, s) ==
      if i == |ps| then (if (e + s) % U64 <= (c.base + c.capacity) % U64 then Some(e) else None)
      else if (e + s) % U64 <= ps[i].addr then Some(e)
      else SearchFrom64(c, ps, i + 1, (ps[i].addr + ps[i].size) % U64, s)
  {
  }

  lemma PlainStep(c: Config, ps: Pages, i: nat, e: nat, s: nat)
    requires i <= |ps|
    ensures SearchFrom(c, ps, i, e, s) ==
      if i == |ps| then (if e + s <= c.Limit() then Some(e) else None)
      else if e + s <= ps[i].addr then Some(e)
      else SearchFrom(c, ps, i + 1, ps[i].End(), s)
  {
  }

  /** The end of the last page, or the base when there is none. */
  function LastEnd(c: Config, ps: Pages): nat {
    if ps == [] then c.base else ps[|ps| - 1].End()
  }

  lemma LastEndIs(c: Config, ps: Pages)
    requires PagesOk(c, ps)
    ensures forall i | 0 <= i < |ps| :: ps[i].End() <= LastEnd(c, ps)
  {
    forall i | 0 <= i < |ps| ensures ps[i].End() <= LastEnd(c, ps) {
      assert PageOk(c, ps[|ps| - 1]);
    }
  }

  /** The search has passed i pages: they end at or before e, and no address below e is good. */
  ghost predicate Passed(c: Config, ps: Pages, i: nat, e: nat, s: nat) {
    && i <= |ps| && c.base <= e && (forall j | 0 <= j < i :: ps[j].End() <= e)
    && (forall j | i <= j < |ps| :: e <= ps[j].addr)
    && forall y: nat | c.base <= y < e :: !Clear(ps, y, s)
  }

  lemma PassPage(c: Config, ps: Pages, i: nat, e: nat, s: nat)
    requires PagesOk(c, ps) && Passed(c, ps, i, e, s) && i < |ps| && ps[i].addr < e + s
    ensures Passed(c, ps, i + 1, ps[i].End(), s)
  {
    forall y: nat | c.base <= y < ps[i].End() ensures !Clear(ps, y, s) {
      if e <= y {
        assert !(y + s <= ps[i].addr || ps[i].End() <= y);
      }
    }
  }

  lemma GapFound(c: Config, ps: Pages, i: nat, e: nat, s: nat)
    requires PagesOk(c, ps) && Passed(c, ps, i, e, s) && (i < |ps| ==> e + s <= ps[i].addr)
    ensures LowestGap(c, ps, s, e)
  {
    assert Clear(ps, e, s);
  }

  /** s bytes fit between the base and some page, or between the base and the limit. */
  ghost predicate GapFits(c: Config, ps: Pages, s: nat) {
    exists y: nat :: c.base <= y && Clear(ps, y, s) && (y + s <= c.Limit() || exists i :: 0 <= i < |ps| && y + s <= ps[i].addr)
  }

  lemma GapHere(c: Config, ps: Pages, s: nat, a: nat)
    requires PagesOk(c, ps) && LowestGap(c, ps, s, a) && ((forall j | 0 <= j < |ps| :: ps[j].addr < a) ==> a + s <= c.Limit())
    ensures GapFits(c, ps, s)
  {
    if j :| 0 <= j < |ps| && a <= ps[j].addr {
      assert PageOk(c, ps[j]);
      assert ps[j].addr < ps[j].End();
    }
  }

  lemma NoGapLeft(c: Config, ps: Pages, e: nat, s: nat)
    requires PagesOk(c, ps) && Passed(c, ps, |ps|, e, s) && c.Limit() < e + s
    ensures !GapFits(c, ps, s)
  {
    forall y: nat | c.base <= y && Clear(ps, y, s) ensures c.Limit() < y + s && forall i | 0 <= i < |ps| :: ps[i].addr < y + s {
      assert e <= y;
      forall i | 0 <= i < |ps| ensures ps[i].addr < y + s {
        assert PageOk(c, ps[i]);
      }
    }
  }

  /** The unbounded search is sound and complete: the lowest gap that fits, or no room below the limit. */
  lemma {:induction false} SearchIs(c: Config, ps: Pages, i: nat, e: nat, s: nat)
    requires PagesOk(c, ps) && Passed(c, ps, i, e, s) && 0 < s
    ensures match SearchFrom(c, ps, i, e, s)
      case Some(a) => LowestGap(c, ps, s, a) && ((forall j | 0 <= j < |ps| :: ps[j].addr < a) ==> a + s <= c.Limit())
      case None => NoRoom(c, ps, s) && !GapFits(c, ps, s)
    decreases |ps| - i
  {
    hide PageOk, Clear, GapFits;
    if i == |ps| {
      GapFound(c, ps, i, e, s);
      if c.Limit() < e + s {
        NoGapLeft(c, ps, e, s);
      }
    } else if e + s <= ps[i].addr {
      GapFound(c, ps, i, e, s);
    } else {
      PassPage(c, ps, i, e, s);
      SearchIs(c, ps, i + 1, ps[i].End(), s);
    }
  }

  lemma NothingPassed(c: Config, ps: Pages, s: nat)
    requires Above(c, ps)
    ensures Passed(c, ps, 0, c.base, s)
  {
  }

  lemma SmallSum(x: nat)
    requires x < U64
    ensures x % U64 == x
  {
  }

  lemma WrappedSum(e: nat, s: nat)
    requires e < U64 && s < U64 && U64 <= e + s
    ensures (e + s) % U64 == e + s - U64 < e
  {
  }

  /** How the two searches differ: the sum at some end wraps, and the program takes that place although nothing fits. */
  lemma {:induction false} SearchDiffers(c: Config, ps: Pages, i: nat, e: nat, s: nat)
    requires StateOk(c, ps) && c.Limit() < U64 && i <= |ps| && e < U64 && 0 < s < U64
    requires forall j | i <= j < |ps| :: e <= ps[j].addr
    ensures var r := SearchFrom64(c, ps, i, e, s);
      r == SearchFrom(c, ps, i, e, s) || (SearchFrom(c, ps, i, e, s) == None && r.Some? && U64 <= r.value + s)
    decreases |ps| - i
  {
    hide PageOk;
    SmallSum(c.base + c.capacity);
    if e + s < U64 {
      SmallSum(e + s);
      if i < |ps| {
        SmallSum(ps[i].End());
        SearchDiffers(c, ps, i + 1, ps[i].End(), s);
      }
    } else {
      WrappedSum(e, s);
      NothingFits(c, ps, i, e, s);
    }
  }

  /** When the sum at some end passes 2^64, no later gap fits either. */
  lemma {:induction false} NothingFits(c: Config, ps: Pages, i: nat, e: nat, s: nat)
    requires StateOk(c, ps) && c.Limit() < U64 && i <= |ps| && U64 <= e + s
    requires forall j | i <= j < |ps| :: e <= ps[j].addr
    ensures SearchFrom(c, ps, i, e, s) == None
    decreases |ps| - i
  {
    if i < |ps| {
      assert PageOk(c, ps[i]);
      NothingFits(c, ps, i + 1, ps[i].End(), s);
    }
  }

  /** While the sum at the last end fits 64 bits, the two searches agree. */
  lemma {:induction false} SmallSearch(c: Config, ps: Pages, i: nat, e: nat, s: nat)
    requires StateOk(c, ps) && c.Limit() < U64 && i <= |ps| && e + s < U64 && LastEnd(c, ps) + s < U64
    ensures SearchFrom64(c, ps, i, e, s) == SearchFrom(c, ps, i, e, s)
    decreases |ps| - i
  {
    hide PageOk;
    SmallSum(c.base + c.capacity);
    SmallSum(e + s);
    if i < |ps| {
      SmallSum(ps[i].End());
      LastEndIs(c, ps);
      SmallSearch(c, ps, i + 1, ps[i].End(), s);
    }
  }

  /** The end of page i - 1, or the base. */
  function EndBefore(c: Config, ps: Pages, i: nat): nat
    requires i <= |ps|
  {
    if i == 0 then c.base else ps[i - 1].End()
  }

  lemma EndsAscend(c: Config, ps: Pages, i: nat, k: nat)
    requires StateOk(c, ps) && i <= k <= |ps|
    ensures EndBefore(c, ps, i) <= EndBefore(c, ps, k) && (i < |ps| ==> EndBefore(c, ps, i) <= ps[i].addr)
  {
    assert forall j | 0 <= j < |ps| :: PageOk(c, ps[j]);
  }

  /** What the sums do when the one at the last end wraps and no gap fits: an earlier one wraps as well, or the wrapped one
    is compared with the limit. */
  ghost predicate TakesPlace(c: Config, ps: Pages, s: nat)
    requires ps != []
  {
    U64 <= EndBefore(c, ps, |ps| - 1) + s || LastEnd(c, ps) + s <= U64 + c.Limit()
  }

  lemma {:induction false} LargeSearch(c: Config, ps: Pages, i: nat, s: nat)
    requires StateOk(c, ps) && c.Limit() < U64 && i < |ps| && 0 < s < U64 && U64 <= LastEnd(c, ps) + s
    requires SearchFrom(c, ps, i, EndBefore(c, ps, i), s) == None
    ensures SearchFrom64(c, ps, i, EndBefore(c, ps, i), s).Some? <==> TakesPlace(c, ps, s)
    decreases |ps| - i
  {
    hide StateOk, SearchFrom, SearchFrom64;
    SmallSum(c.base + c.capacity);
    var e := EndBefore(c, ps, i);
    SearchStep(c, ps, i, e, s);
    PlainStep(c, ps, i, e, s);
    EndsAscend(c, ps, i, |ps| - 1);
    EndBelow(c, ps, i);
    if U64 <= e + s {
      WrappedSum(e, s);
    } else {
      SmallSum(e + s);
      EndBelow(c, ps, i + 1);
      SmallSum(ps[i].End());
      if i + 1 < |ps| {
        LargeSearch(c, ps, i + 1, s);
      } else {
        SearchStep(c, ps, |ps|, ps[i].End(), s);
        WrappedSum(ps[i].End(), s);
      }
    }
  }

  lemma EndBelow(c: Config, ps: Pages, i: nat)
    requires StateOk(c, ps) && c.Limit() < U64 && i <= |ps|
    ensures EndBefore(c, ps, i) < U64
  {
    hide PagesOk;
  }

  /** The program's search for s bytes is right exactly when some gap fits, the sum at the last end is below 2^64, or it is
    the only one that wraps and still passes the limit, which needs a page that ends past the limit. */
  lemma SearchIff(c: Config, ps: Pages, s: nat)
    requires c.Ok() && StateOk(c, ps) && 0 < s < U64
    ensures ps == [] ||
      (Search64(c, ps, s) == Search(c, ps, s) <==> GapFits(c, ps, s) || LastEnd(c, ps) + s < U64 || !TakesPlace(c, ps, s))
  {
    hide PageOk, SearchFrom, SearchFrom64, NoRoom, LowestGap, GapFits, TakesPlace;
    if ps != [] {
      NothingPassed(c, ps, s);
      SearchIs(c, ps, 0, c.base, s);
      SearchDiffers(c, ps, 0, c.base, s);
      EndsAscend(c, ps, 0, |ps|);
      if Search(c, ps, s).Some? {
        GapHere(c, ps, s, Search(c, ps, s).value);
      } else if LastEnd(c, ps) + s < U64 {
        SmallSearch(c, ps, 0, c.base, s);
      } else {
        LargeSearch(c, ps, 0, s);
      }
    }
  }

  /** While the pages stay inside the capacity, a last sum that wraps is never refused. */
  lemma InsideTakes(c: Config, ps: Pages, s: nat)
    requires Within(c, ps) && ps != [] && s < U64
    ensures TakesPlace(c, ps, s)
  {
  }

  // ---- allocation ----

  /** The sums of a request are right: it is empty, some free block fits, the first page ends below 2^64,
    or the program's search finds what the unbounded one finds. */
  ghost predicate Sound(c: Config, ps: Pages, size: nat)
    requires c.Ok()
  {
    var n := AlignUp(size, c.blockAlign);
    var s := AlignUp(n, c.pageAlign);
    size == 0 || (exists j | 0 <= j < |ps| :: !NoFit(ps[j], n)) ||
    if ps == [] then c.base + s < U64 else Search64(c, ps, s) == Search(c, ps, s)
  }

  /** The sums of a request are right exactly when it is empty, some free block or some gap fits, the new page would end
    below 2^64 behind the last one, or the wrapped sum is refused. */
  lemma SoundIff(c: Config, ps: Pages, size: nat)
    requires c.Ok() && StateOk(c, ps) && size <= U64 - c.pageAlign
    ensures var n := AlignUp(size, c.blockAlign);
      var s := AlignUp(n, c.pageAlign);
      Sound(c, ps, size) <==>
        size == 0 || (exists j | 0 <= j < |ps| :: !NoFit(ps[j], n)) || LastEnd(c, ps) + s < U64 ||
        (ps != [] && (GapFits(c, ps, s) || !TakesPlace(c, ps, s)))
  {
    hide StateOk, NoFit, Search, Search64, GapFits, AlignUp, TakesPlace;
    Roundings(c, size);
    if size != 0 && ps != [] {
      SearchIff(c, ps, AlignUp(AlignUp(size, c.blockAlign), c.pageAlign));
    }
  }

  /** A page of s bytes with n in use was inserted by its address. */
  ghost predicate NewAt(ps: Pages, a: nat, s: nat, n: nat, ps': Pages, k: nat) {
    && k <= |ps| && ps' == InsertAt(ps, k, PageV(a, s, map[a := n]))
    && (forall j | 0 <= j < k :: ps[j].addr <= a) && (k < |ps| ==> a <= ps[k].addr)
  }

  /** A new page was placed where the program's search says, although its end passes 2^64. */
  ghost predicate Misplaced(c: Config, ps: Pages, size: nat, a: nat, ps': Pages)
    requires c.Ok()
  {
    var n := AlignUp(size, c.blockAlign);
    var s := AlignUp(n, c.pageAlign);
    Search64(c, ps, s) == Some(a) && U64 <= a + s && exists k: nat :: NewAt(ps, a, s, n, ps', k)
  }

  lemma TakenFromBounded(ps: Pages, n: nat, a: nat, ps': Pages, i: nat)
    requires Bounded(ps) && TakenFrom(ps, n, a, ps', i)
    ensures Bounded(ps')
  {
    hide NoFit, BestFit;
  }

  lemma NewAtBounded(ps: Pages, a: nat, s: nat, n: nat, ps': Pages, k: nat)
    requires Bounded(ps) && NewAt(ps, a, s, n, ps', k)
    ensures Bounded(ps') <==> a + s < U64
  {
    var q := PageV(a, s, map[a := n]);
    assert forall j | 0 <= j < |ps'| :: ps'[j] == if j < k then ps[j] else if j == k then q else ps[j - 1];
    assert ps'[k] == q;
  }

  /** A new page that a sound request asks for. */
  lemma SoundNew(c: Config, ps: Pages, n: nat, s: nat, a: nat, ps': Pages, k: nat)
    requires c.Ok() && StateOk(c, ps) && 0 < n <= s < U64 && NewAt(ps, a, s, n, ps', k)
    requires (forall j | 0 <= j < |ps| :: NoFit(ps[j], n)) && Search64(c, ps, s) == Some(a)
    requires if ps == [] then c.base + s < U64 else Search64(c, ps, s) == Search(c, ps, s)
    ensures TakenNew(c, ps, n, s, a, ps', k) && a + s < U64
  {
    hide PageOk, NoFit, LowestGap, SearchFrom, SearchFrom64, InsertAt, TakenNew;
    if ps != [] {
      NothingPassed(c, ps, s);
      SearchIs(c, ps, 0, c.base, s);
    }
    NewTaken(c, ps, n, s, a, k);
    TakenNewEnd(c, ps, n, s, a, ps', k);
  }

  lemma TakenNewEnd(c: Config, ps: Pages, n: nat, s: nat, a: nat, ps': Pages, k: nat)
    requires c.Ok() && Bounded(ps) && TakenNew(c, ps, n, s, a, ps', k) && (ps == [] ==> a + s < U64)
    ensures a + s < U64
  {
    hide NoFit, LowestGap, InsertAt;
    if k < |ps| {
      assert ps[k].End() < U64;
    }
  }

  /** A new page that a request asks for whose sums are not right. */
  lemma UnsoundNew(c: Config, ps: Pages, s: nat, a: nat)
    requires c.Ok() && StateOk(c, ps) && 0 < s < U64 && Search64(c, ps, s) == Some(a)
    requires if ps == [] then U64 <= c.base + s else Search64(c, ps, s) != Search(c, ps, s)
    ensures U64 <= a + s
  {
    hide PageOk, SearchFrom, SearchFrom64;
    if ps != [] {
      SearchDiffers(c, ps, 0, c.base, s);
    }
  }

  /** When the program finds no place there is none, whether the sums wrap or not. */
  lemma NothingFound(c: Config, ps: Pages, s: nat)
    requires c.Ok() && StateOk(c, ps) && 0 < s < U64 && Search64(c, ps, s) == None
    ensures ps != [] && NoRoom(c, ps, s) && Search(c, ps, s) == None
  {
    hide PageOk, SearchFrom, SearchFrom64, NoRoom;
    NothingPassed(c, ps, s);
    SearchIs(c, ps, 0, c.base, s);
    SearchDiffers(c, ps, 0, c.base, s);
  }

  lemma AllocatesBounded(c: Config, ps: Pages, size: nat, a: nat, ps': Pages)
    requires c.Ok() && Bounded(ps) && Allocates(c, ps, size, a, ps')
    requires ps == [] ==> c.base + AlignUp(AlignUp(size, c.blockAlign), c.pageAlign) < U64
    ensures Bounded(ps')
  {
    var n := AlignUp(size, c.blockAlign);
    var s := AlignUp(n, c.pageAlign);
    hide AlignUp, TakenFrom, TakenNew, Bounded;
    if i: nat :| TakenFrom(ps, n, a, ps', i) {
      TakenFromBounded(ps, n, a, ps', i);
    } else {
      var k: nat :| TakenNew(c, ps, n, s, a, ps', k);
      FirstAtBase(c, ps, n, s, a, ps', k);
      TakenNewEnd(c, ps, n, s, a, ps', k);
      NewBounded(c, ps, n, s, a, ps', k);
    }
  }

  lemma FirstAtBase(c: Config, ps: Pages, n: nat, s: nat, a: nat, ps': Pages, k: nat)
    requires TakenNew(c, ps, n, s, a, ps', k)
    ensures ps == [] ==> a == c.base
  {
    hide NoFit, LowestGap, InsertAt;
  }

  lemma NewBounded(c: Config, ps: Pages, n: nat, s: nat, a: nat, ps': Pages, k: nat)
    requires TakenNew(c, ps, n, s, a, ps', k) && Bounded(ps) && a + s < U64
    ensures Bounded(ps')
  {
    hide NoFit, LowestGap;
    var q := PageV(a, s, map[a := n]);
    assert forall j | 0 <= j < |ps'| :: ps'[j] == if j < k then ps[j] else if j == k then q else ps[j - 1];
  }

  lemma ReleaseBounded(c: Config, ps: Pages, A: set<nat>)
    requires PagesOk(c, ps) && Bounded(ps)
    ensures Bounded(Without(ps, A))
  {
    hide PagesOk, Without;
    ReleaseKeeps(c, ps, A);
    forall i | 0 <= i < |Without(ps, A)| ensures Without(ps, A)[i].End() < U64 {
      assert FromPage(Without(ps, A)[i], ps);
    }
  }

  // ---- the overlap test ----

  /** The test of the program: the end of the range may wrap. */
  predicate Overlap64(ps: Pages, start: nat, size: nat) {
    exists i | 0 <= i < |ps| :: Meets64(ps[i], start, size)
  }

  predicate Meets64(p: PageV, start: nat, size: nat) {
    start <= (p.addr + p.size) % U64 && (start + size) % U64 >= p.addr
  }

  lemma OverlapIs(ps: Pages, start: nat, size: nat)
    ensures Overlap64(ps, start, size) <==> exists i | 0 <= i < |ps| :: Meets64(ps[i], start, size)
  {
    hide Meets64;
  }

  lemma MeetsIs(p: PageV, start: nat, size: nat)
    ensures Meets64(p, start, size) <==> start <= (p.addr + p.size) % U64 && (start + size) % U64 >= p.addr
  {
  }

  /** The program's test is right exactly when the end of the range fits 64 bits, no page reaches its start,
    or a page that does so begins below the wrapped end. */
  lemma OverlapIff(ps: Pages, start: nat, size: nat)
    requires Bounded(ps) && start < U64 && size < U64
    ensures (Overlap64(ps, start, size) <==> !Apart(ps, start, size)) <==>
      start + size < U64 || (forall i | 0 <= i < |ps| :: ps[i].End() < start) ||
      exists i | 0 <= i < |ps| :: start <= ps[i].End() && ps[i].addr <= start + size - U64
  {
    forall i | 0 <= i < |ps|
      ensures Meets64(ps[i], start, size) <==>
        start <= ps[i].End() && ps[i].addr <= (if start + size < U64 then start + size else start + size - U64)
    {
      SmallSum(ps[i].End());
      if start + size < U64 {
        SmallSum(start + size);
      } else {
        WrappedSum(start, size);
      }
    }
    if U64 <= start + size {
      forall i | 0 <= i < |ps| && start <= ps[i].End() ensures !Apart(ps, start, size) {
        assert ps[i].addr < U64;
      }
    }
  }

  /** Whether the program grants a reservation of s bytes, a whole number of pages. */
  predicate Grants64(c: Config, ps: Pages, a: nat, s: nat) {
    (a + s) % U64 <= (c.base + c.capacity) % U64 && !Overlap64(ps, a, s)
  }

  /** The bounds test and the overlap test of a reservation are right together exactly when its end fits 64 bits
    or they refuse it for another reason. */
  lemma GrantsIff(c: Config, ps: Pages, a: nat, s: nat)
    requires c.Ok() && Bounded(ps) && a < U64 && s < U64
    ensures (Grants64(c, ps, a, s) <==> a + s <= c.Limit() && Apart(ps, a, s)) <==>
      a + s < U64 || c.Limit() < a + s - U64 || exists i | 0 <= i < |ps| :: a <= ps[i].End() && ps[i].addr <= a + s - U64
  {
    SmallSum(c.base + c.capacity);
    forall i | 0 <= i < |ps|
      ensures Meets64(ps[i], a, s) <==> a <= ps[i].End() && ps[i].addr <= (if a + s < U64 then a + s else a + s - U64)
    {
      SmallSum(ps[i].End());
      if a + s < U64 {
        SmallSum(a + s);
      } else {
        WrappedSum(a, s);
      }
    }
    if a + s < U64 {
      SmallSum(a + s);
      assert Overlap64(ps, a, s) <==> !Apart(ps, a, s);
    } else {
      WrappedSum(a, s);
    }
  }

  // ---- inputs for which the sums go wrong ----

  /** A page at the base, full, and a request of nearly 2^64 bytes: the sum at its end wraps to 0xF000, so the search
    returns the base, which is in use. Nothing of that size fits. */
  lemma WrappedSearch()
    ensures var c, ps := Config(0x1_0000, 0x10_0000, 4096, 64), [PageV(0x1_0000, 4096, map[0x1_0000 := 4096])];
      && c.Ok() && StateOk(c, ps) && Within(c, ps) && AlignUp(AlignUp(U64 - 4096, 64), 4096) == U64 - 4096
      && Search64(c, ps, U64 - 4096) == Some(0x1_0000) && 0x1_0000 in Frames(ps) && Search(c, ps, U64 - 4096) == None
      && !Sound(c, ps, U64 - 4096)
  {
    var c, ps := Config(0x1_0000, 0x10_0000, 4096, 64), [PageV(0x1_0000, 4096, map[0x1_0000 := 4096])];
    AlignUpExact(U64 - 4096, 64);
    AlignUpExact(U64 - 4096, 4096);
    NewPageOk(c, 0x1_0000, 4096, 4096);
    SmallPage(ps[0], U64 - 4096);
    assert (0x1_0000 + (U64 - 4096)) % U64 == 0xF000;
  }

  /** A first page that passes the limit, and a size for which only the last sum wraps, to above the limit: both searches
    find nothing. */
  lemma WrappedRefused()
    ensures var c, ps, s := Config(0x1_0000, 0x1000, 4096, 64), [PageV(0x1_0000, 0x4_0000, map[0x1_0000 := 0x4_0000])], U64 - 0x2_0000;
      && c.Ok() && StateOk(c, ps) && U64 <= LastEnd(c, ps) + s && !TakesPlace(c, ps, s)
      && Search64(c, ps, s) == None && Search(c, ps, s) == None
  {
    var c, ps, s := Config(0x1_0000, 0x1000, 4096, 64), [PageV(0x1_0000, 0x4_0000, map[0x1_0000 := 0x4_0000])], U64 - 0x2_0000;
    NewPageOk(c, 0x1_0000, 0x4_0000, 0x4_0000);
    assert (0x5_0000 + s) % U64 == 0x3_0000;
    assert (0x1_0000 + s) % U64 == U64 - 0x1_0000;
  }

  lemma SmallPage(p: PageV, n: nat)
    requires p.size < n
    ensures NoFit(p, n)
  {
  }

  /** A size is rounded to no bytes at all exactly when it is within one alignment of 2^64. */
  lemma RoundsToZero(c: Config, size: nat)
    requires c.Ok() && 0 < size < U64
    ensures AlignSize(size, c.pageAlign) == 0 <==> U64 - c.pageAlign < size
  {
    hide AlignSize;
    if size <= U64 - c.pageAlign {
      Roundings(c, size);
    } else {
      ZeroPages(c, size);
    }
  }

  lemma ZeroPages(c: Config, size: nat)
    requires c.Ok() && U64 - c.pageAlign < size < U64
    ensures AlignSize(size, c.pageAlign) == 0
  {
    var a := c.pageAlign;
    DivModUnique(size + a - 1, U64, 1, size + a - 1 - U64);
    DivModUnique(size + a - 1 - U64, a, 0, size + a - 1 - U64);
  }

  /** So a reservation of almost 2^64 bytes passes both tests wherever a reservation of no bytes would. */
  lemma EmptyReserve(c: Config, ps: Pages, a: nat, size: nat)
    requires c.Ok() && Bounded(ps) && a < U64 && U64 - c.pageAlign < size < U64
    ensures Grants64(c, ps, a, AlignSize(size, c.pageAlign)) <==> a <= c.Limit() && Apart(ps, a, 0)
  {
    hide AlignSize, Overlap64, Apart;
    RoundsToZero(c, size);
    SmallSum(a);
    SmallSum(c.Limit());
    OverlapEmpty(ps, a);
  }

  lemma OverlapEmpty(ps: Pages, a: nat)
    requires Bounded(ps) && a < U64
    ensures Overlap64(ps, a, 0) <==> !Apart(ps, a, 0)
  {
    OverlapIff(ps, a, 0);
  }

  /** A reservation of the last page of the 64-bit address space is granted, far past every limit. */
  lemma WrappedReserve(c: Config)
    requires c.Ok()
    ensures Grants64(c, [], U64 - 4096, 4096) && !(U64 - 4096 + 4096 <= c.Limit())
  {
  }
}
