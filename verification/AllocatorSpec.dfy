/** The allocator's state as values: pages sorted by address, each with its used blocks. */
module AllocatorSpec {
  import opened Arith
  import opened Bits
  import opened Intervals

  datatype Config = Config(base: nat, capacity: nat, pageAlign: nat, blockAlign: nat) {
    /** The alignments are powers of two, and the memory ends below 2^64. */
    ghost predicate Ok() {
      && 0 < blockAlign && 0 < pageAlign && pageAlign % blockAlign == 0
      && pageAlign < U64 && U64 % pageAlign == 0 && Limit() < U64
    }

    function Limit(): nat {
      base + capacity
    }
  }

  datatype PageV = PageV(addr: nat, size: nat, used: Blocks) {
    function End(): nat {
      addr + size
    }
  }

  type Pages = seq<PageV>

  /** The smallest multiple of a that is at least n. */
  function AlignUp(n: nat, a: nat): (r: nat)
    requires 0 < a
    ensures n <= r < n + a && r % a == 0
  {
    var q := (n + a - 1) / a;
    MultipleMod(a, q);
    assert a * q == n + a - 1 - (n + a - 1) % a;
    a * q
  }

  ghost predicate PageOk(c: Config, p: PageV) {
    && 0 < c.blockAlign && 0 < p.size && p.size % c.blockAlign == 0 && p.used != map[]
    && Quantized(p.used, c.blockAlign)
    && (forall u <- p.used :: 0 < p.used[u] && p.addr <= u && u + p.used[u] <= p.End())
    && (forall u <- p.used, v <- p.used | u < v :: u + p.used[u] <= v)
  }

  /** Pages are never empty, pairwise disjoint and sorted by address. */
  ghost predicate PagesOk(c: Config, ps: Pages) {
    && (forall i | 0 <= i < |ps| :: PageOk(c, ps[i]))
    && (forall i, j | 0 <= i < j < |ps| :: ps[i].End() <= ps[j].addr)
  }

  ghost predicate Above(c: Config, ps: Pages) {
    forall i | 0 <= i < |ps| :: c.base <= ps[i].addr
  }

  ghost predicate Within(c: Config, ps: Pages) {
    Above(c, ps) && forall i | 0 <= i < |ps| :: ps[i].End() <= c.Limit()
  }

  ghost predicate Gap(p: PageV, a: nat, n: nat) {
    IsHole(p.addr, p.End(), p.used, a, n)
  }

  /** Page p has no free block of at least n bytes. */
  ghost predicate NoFit(p: PageV, n: nat) {
    forall a: nat, m: nat | Gap(p, a, m) :: m < n
  }

  /** a starts the smallest free block of page p that has at least n bytes. */
  ghost predicate BestFit(p: PageV, n: nat, a: nat) {
    exists m: nat :: Gap(p, a, m) && n <= m && forall b: nat, k: nat | Gap(p, b, k) && n <= k :: m <= k
  }

  /** [x, x + n) meets no page. */
  ghost predicate Clear(ps: Pages, x: nat, n: nat) {
    forall i | 0 <= i < |ps| :: x + n <= ps[i].addr || ps[i].End() <= x
  }

  /** x is the lowest address from base on where n bytes meet no page. */
  ghost predicate LowestGap(c: Config, ps: Pages, n: nat, x: nat) {
    c.base <= x && Clear(ps, x, n) && forall y: nat | c.base <= y < x :: !Clear(ps, y, n)
  }

  /** Among the free blocks of at least n bytes, the one at a is smallest. */
  ghost predicate Smallest(free: Blocks, n: nat, a: nat) {
    a in free && n <= free[a] && forall f <- free | n <= free[f] :: free[a] <= free[f]
  }

  lemma NoFitIs(p: PageV, free: Blocks, n: nat)
    requires Partition(p.addr, p.End(), p.used, free) && Coalesced(free)
    ensures NoFit(p, n) <==> forall f <- free :: free[f] < n
  {
    hide Partition, Coalesced, IsHole;
    if NoFit(p, n) {
      forall f <- free ensures free[f] < n {
        FreeAreHoles(p.addr, p.End(), p.used, free, f, free[f]);
        assert Gap(p, f, free[f]);
      }
    }
    if forall f <- free :: free[f] < n {
      forall a: nat, m: nat | Gap(p, a, m) ensures m < n {
        FreeAreHoles(p.addr, p.End(), p.used, free, a, m);
      }
    }
  }

  lemma BestFitIs(p: PageV, free: Blocks, n: nat, a: nat)
    requires Partition(p.addr, p.End(), p.used, free) && Coalesced(free) && Smallest(free, n, a)
    ensures BestFit(p, n, a)
  {
    hide Partition, Coalesced, IsHole;
    FreeAreHoles(p.addr, p.End(), p.used, free, a, free[a]);
    assert Gap(p, a, free[a]);
    forall b: nat, k: nat | Gap(p, b, k) && n <= k ensures free[a] <= k {
      FreeAreHoles(p.addr, p.End(), p.used, free, b, k);
    }
  }

  function Use(p: PageV, a: nat, n: nat): PageV {
    p.(used := p.used[a := n])
  }

  function InsertAt(ps: Pages, k: nat, p: PageV): Pages
    requires k <= |ps|
  {
    ps[..k] + [p] + ps[k..]
  }

  /** Page i is the first with a fitting free block; a is its best fit. */
  ghost predicate TakenFrom(ps: Pages, n: nat, a: nat, ps': Pages, i: nat) {
    && i < |ps| && (forall j | 0 <= j < i :: NoFit(ps[j], n))
    && BestFit(ps[i], n, a) && ps' == ps[i := Use(ps[i], a, n)]
  }

  /** No page fits; a new page of size s is placed at a, between pages k - 1 and k. */
  ghost predicate TakenNew(c: Config, ps: Pages, n: nat, s: nat, a: nat, ps': Pages, k: nat) {
    && k <= |ps| && (forall j | 0 <= j < |ps| :: NoFit(ps[j], n))
    && (if ps == [] then a == c.base else LowestGap(c, ps, s, a) && (k == |ps| ==> a + s <= c.Limit()))
    && (forall j | 0 <= j < k :: ps[j].End() <= a) && (forall j | k <= j < |ps| :: a + s <= ps[j].addr)
    && ps' == InsertAt(ps, k, PageV(a, s, map[a := n]))
  }

  /** A successful allocation of size bytes at a leads from ps to ps'. */
  ghost predicate Allocates(c: Config, ps: Pages, size: nat, a: nat, ps': Pages)
    requires c.Ok()
  {
    var n := AlignUp(size, c.blockAlign);
    0 < size && ((exists i: nat :: TakenFrom(ps, n, a, ps', i)) || exists k: nat :: TakenNew(c, ps, n, AlignUp(n, c.pageAlign), a, ps', k))
  }

  /** No free block fits, and no room for a new page is left below the limit. */
  ghost predicate Exhausted(c: Config, ps: Pages, size: nat)
    requires c.Ok()
  {
    var n := AlignUp(size, c.blockAlign);
    var s := AlignUp(n, c.pageAlign);
    ps != [] && (forall j | 0 <= j < |ps| :: NoFit(ps[j], n)) && NoRoom(c, ps, s)
  }

  /** Wherever s bytes are placed between the base and the limit, they meet a page. */
  ghost predicate NoRoom(c: Config, ps: Pages, s: nat) {
    forall y: nat | c.base <= y && y + s <= c.Limit() :: !Clear(ps, y, s)
  }

  /** No page touches [x, x + n), not even at its ends. */
  ghost predicate Apart(ps: Pages, x: nat, n: nat) {
    forall i | 0 <= i < |ps| :: x + n < ps[i].addr || ps[i].End() < x
  }

  /** A reservation of size bytes at a leads from ps to ps'. */
  ghost predicate Reserves(c: Config, ps: Pages, a: nat, size: nat, ps': Pages)
    requires c.Ok()
  {
    var s := AlignUp(size, c.pageAlign);
    && 0 < size && a + s <= c.Limit() && Apart(ps, a, s)
    && exists k: nat :: PlacedAt(ps, a, s, k) && ps' == InsertAt(ps, k, PageV(a, s, map[a := s]))
  }

  ghost predicate PlacedAt(ps: Pages, a: nat, s: nat, k: nat) {
    k <= |ps| && (forall j | 0 <= j < k :: ps[j].End() <= a) && (forall j | k <= j < |ps| :: a + s <= ps[j].addr)
  }

  // ---- release, as a function ----

  /** Page p without the blocks that start in A; a page that becomes empty is dropped. */
  ghost function Drop(p: PageV, A: set<nat>): Pages {
    if p.used - A == map[] then [] else [p.(used := p.used - A)]
  }

  ghost function Without(ps: Pages, A: set<nat>): Pages {
    if ps == [] then [] else Drop(ps[0], A) + Without(ps[1..], A)
  }

  /** The start addresses of all used blocks. */
  ghost function Frames(ps: Pages): set<nat> {
    if ps == [] then {} else ps[0].used.Keys + Frames(ps[1..])
  }

  /** Releases the addresses of a sequence one after the other. */
  ghost function ReleaseAll(ps: Pages, xs: seq<nat>): Pages
    decreases |xs|
  {
    if xs == [] then ps else ReleaseAll(Without(ps, {xs[0]}), xs[1..])
  }

  ghost predicate NonEmpty(ps: Pages) {
    forall i | 0 <= i < |ps| :: ps[i].used != map[]
  }

  lemma {:induction false} WithoutConcat(ps: Pages, qs: Pages, A: set<nat>)
    ensures Without(ps + qs, A) == Without(ps, A) + Without(qs, A)
  {
    if ps == [] {
      assert ps + qs == qs;
    } else {
      assert (ps + qs)[1..] == ps[1..] + qs;
      WithoutConcat(ps[1..], qs, A);
    }
  }

  lemma {:induction false} FramesConcat(ps: Pages, qs: Pages)
    ensures Frames(ps + qs) == Frames(ps) + Frames(qs)
  {
    if ps == [] {
      assert ps + qs == qs;
    } else {
      assert (ps + qs)[1..] == ps[1..] + qs;
      FramesConcat(ps[1..], qs);
    }
  }

  lemma {:induction false} FramesIn(ps: Pages, a: nat)
    ensures a in Frames(ps) <==> exists i :: 0 <= i < |ps| && a in ps[i].used
  {
    if ps != [] {
      FramesIn(ps[1..], a);
      if a in ps[0].used {
        assert a in ps[0].used;
      } else if a in Frames(ps[1..]) {
        var i :| 0 <= i < |ps[1..]| && a in ps[1..][i].used;
        assert a in ps[i + 1].used;
      }
      forall i | 0 <= i < |ps| && a in ps[i].used ensures a in Frames(ps) {
        if i > 0 {
          assert a in ps[1..][i - 1].used;
        }
      }
    }
  }

  /** Releasing addresses that are not in use changes nothing. */
  lemma {:induction false} WithoutNone(ps: Pages, A: set<nat>)
    requires NonEmpty(ps) && Frames(ps) !! A
    ensures Without(ps, A) == ps
  {
    if ps != [] {
      assert ps[0].used - A == ps[0].used;
      assert forall i | 0 <= i < |ps[1..]| :: ps[1..][i] == ps[i + 1];
      WithoutNone(ps[1..], A);
      assert ps == [ps[0]] + ps[1..];
    }
  }

  lemma {:induction false} WithoutNonEmpty(ps: Pages, A: set<nat>)
    ensures NonEmpty(Without(ps, A))
  {
    if ps != [] {
      WithoutNonEmpty(ps[1..], A);
    }
  }

  /** Two releases are one release of the union. */
  lemma {:induction false} WithoutTwice(ps: Pages, A: set<nat>, B: set<nat>)
    ensures Without(Without(ps, A), B) == Without(ps, A + B)
  {
    if ps != [] {
      WithoutTwice(ps[1..], A, B);
      WithoutConcat(Drop(ps[0], A), Without(ps[1..], A), B);
      assert ps[0].used - A - B == ps[0].used - (A + B);
      if ps[0].used - A == map[] {
        assert ps[0].used - (A + B) == map[];
      } else {
        assert Drop(ps[0], A)[1..] == [];
        assert Without(Drop(ps[0], A), B) == Drop(ps[0], A + B);
      }
    }
  }

  ghost function Elements(xs: seq<nat>): set<nat> {
    if xs == [] then {} else {xs[0]} + Elements(xs[1..])
  }

  /** Any order of releases gives the same pages: the result depends only on the set released. */
  lemma {:induction false} ReleaseOrder(ps: Pages, xs: seq<nat>)
    requires NonEmpty(ps)
    ensures ReleaseAll(ps, xs) == Without(ps, Elements(xs))
    decreases |xs|
  {
    if xs == [] {
      WithoutNone(ps, {});
    } else {
      WithoutNonEmpty(ps, {xs[0]});
      ReleaseOrder(Without(ps, {xs[0]}), xs[1..]);
      WithoutTwice(ps, {xs[0]}, Elements(xs[1..]));
    }
  }

  lemma {:induction false} ElementsIn(xs: seq<nat>, x: nat)
    ensures x in Elements(xs) <==> x in xs
  {
    if xs != [] {
      ElementsIn(xs[1..], x);
    }
  }

  /** Two sequences of the same addresses, in any order and with any repetitions, lead to the same pages. */
  lemma ReleaseSame(ps: Pages, xs: seq<nat>, ys: seq<nat>)
    requires NonEmpty(ps) && forall x :: x in xs <==> x in ys
    ensures ReleaseAll(ps, xs) == ReleaseAll(ps, ys)
  {
    hide Without;
    forall x: nat ensures x in Elements(xs) <==> x in Elements(ys) {
      ElementsIn(xs, x);
      ElementsIn(ys, x);
    }
    assert Elements(xs) == Elements(ys);
    ReleaseOrder(ps, xs);
    ReleaseOrder(ps, ys);
  }

  lemma {:induction false} WithoutAll(ps: Pages, A: set<nat>)
    requires Frames(ps) <= A
    ensures Without(ps, A) == []
  {
    if ps != [] {
      assert ps[0].used - A == map[];
      WithoutAll(ps[1..], A);
    }
  }

  // ---- what every operation keeps ----

  lemma UseOk(c: Config, p: PageV, a: nat, m: nat, n: nat)
    requires PageOk(c, p) && Gap(p, a, m) && 0 < n <= m && n % c.blockAlign == 0
    ensures a !in p.used && PageOk(c, Use(p, a, n))
    ensures Use(p, a, n).used - {a} == p.used
  {
    var q := Use(p, a, n);
    assert a !in p.used;
    assert a in q.used;
    forall u <- q.used, v <- q.used | u < v ensures u + q.used[u] <= v {
      if u == a {
        assert v in p.used;
      } else if v == a {
        assert u in p.used;
      }
    }
  }

  lemma NewPageOk(c: Config, a: nat, s: nat, n: nat)
    requires c.Ok() && 0 < n <= s && n % c.blockAlign == 0 && s % c.pageAlign == 0
    ensures PageOk(c, PageV(a, s, map[a := n]))
  {
    MultipleTrans(s, c.pageAlign, c.blockAlign);
    assert a in map[a := n];
  }

  /** Splitting a sequence of pages at page i. */
  lemma Around(ps: Pages, i: nat, q: PageV)
    requires i < |ps|
    ensures ps == ps[..i] + ([ps[i]] + ps[i + 1..])
    ensures ps[i := q] == ps[..i] + ([q] + ps[i + 1..])
  {
  }

  lemma AroundInsert(ps: Pages, k: nat, q: PageV)
    requires k <= |ps|
    ensures var r := InsertAt(ps, k, q);
      r[k] == q && r[..k] == ps[..k] && r[k + 1..] == ps[k..] && r == ps[..k] + ([q] + ps[k..])
    ensures ps == ps[..k] + ps[k..]
  {
  }

  lemma {:induction false} WithoutOne(ps: Pages, A: set<nat>, qs: Pages, p: PageV)
    requires NonEmpty(ps) && NonEmpty(qs) && Frames(ps) !! A && Frames(qs) !! A
    ensures Without(ps + ([p] + qs), A) == ps + (Drop(p, A) + qs)
  {
    WithoutConcat(ps, [p] + qs, A);
    WithoutNone(ps, A);
    WithoutNone(qs, A);
    assert ([p] + qs)[1..] == qs;
  }

  lemma FramesOne(ps: Pages, qs: Pages, p: PageV)
    ensures Frames(ps + ([p] + qs)) == Frames(ps) + p.used.Keys + Frames(qs)
  {
    FramesConcat(ps, [p] + qs);
    assert ([p] + qs)[1..] == qs;
  }

  /** An address of page i is used by no other page. */
  lemma OnlyThere(c: Config, ps: Pages, i: nat, a: nat)
    requires PagesOk(c, ps) && i < |ps| && ps[i].addr <= a < ps[i].End()
    ensures a !in Frames(ps[..i]) && a !in Frames(ps[i + 1..])
    ensures NonEmpty(ps[..i]) && NonEmpty(ps[i + 1..])
  {
    FramesIn(ps[..i], a);
    FramesIn(ps[i + 1..], a);
    forall j | 0 <= j < i ensures a !in ps[j].used {
      assert ps[j].End() <= ps[i].addr;
    }
    forall j | i < j < |ps| ensures a !in ps[j].used {
      assert ps[i].End() <= ps[j].addr;
    }
  }

  lemma TakenFromOk(c: Config, ps: Pages, n: nat, a: nat, ps': Pages, i: nat)
    requires PagesOk(c, ps) && TakenFrom(ps, n, a, ps', i) && 0 < n && n % c.blockAlign == 0
    ensures PagesOk(c, ps')
    ensures ps[i].addr <= a && a + n <= ps[i].End() && a !in ps[i].used && Use(ps[i], a, n).used - {a} == ps[i].used
  {
    var m: nat :| Gap(ps[i], a, m) && n <= m;
    UseOk(c, ps[i], a, m, n);
    hide PageOk, BestFit, NoFit;
    forall j, k | 0 <= j < k < |ps'| ensures ps'[j].End() <= ps'[k].addr {
      assert ps[j].End() <= ps[k].addr;
    }
  }

  lemma TakenFromBack(c: Config, ps: Pages, n: nat, a: nat, ps': Pages, i: nat)
    requires PagesOk(c, ps) && TakenFrom(ps, n, a, ps', i) && 0 < n && n % c.blockAlign == 0
    ensures a !in Frames(ps) && Frames(ps') == Frames(ps) + {a} && Without(ps', {a}) == ps
  {
    hide *;
    TakenFromIs(c, ps, n, a, ps', i);
    TakenFromOk(c, ps, n, a, ps', i);
    OnlyThere(c, ps, i, a);
    var p, q, before, after := ps[i], Use(ps[i], a, n), ps[..i], ps[i + 1..];
    Around(ps, i, q);
    FramesOne(before, after, p);
    FramesOne(before, after, q);
    WithoutOne(before, {a}, after, q);
    DropBack(p, a, n);
  }

  lemma TakenFromIs(c: Config, ps: Pages, n: nat, a: nat, ps': Pages, i: nat)
    requires PagesOk(c, ps) && TakenFrom(ps, n, a, ps', i) && 0 < n
    ensures i < |ps| && ps' == ps[i := Use(ps[i], a, n)] && ps[i].used != map[]
    ensures ps[i].addr <= a < ps[i].End()
  {
    hide NoFit;
    assert PageOk(c, ps[i]);
  }

  lemma DropBack(p: PageV, a: nat, n: nat)
    requires p.used != map[] && Use(p, a, n).used - {a} == p.used
    ensures Drop(Use(p, a, n), {a}) == [p]
    ensures Use(p, a, n).used.Keys == p.used.Keys + {a}
  {
  }

  lemma InsertedOk(c: Config, ps: Pages, n: nat, s: nat, a: nat, k: nat)
    requires c.Ok() && PagesOk(c, ps) && PlacedAt(ps, a, s, k)
    requires 0 < n <= s && n % c.blockAlign == 0 && s % c.pageAlign == 0
    ensures PagesOk(c, InsertAt(ps, k, PageV(a, s, map[a := n])))
  {
    NewPageOk(c, a, s, n);
    hide PageOk;
    var ps' := InsertAt(ps, k, PageV(a, s, map[a := n]));
    assert forall j | 0 <= j < |ps'| :: ps'[j] == if j < k then ps[j] else if j == k then PageV(a, s, map[a := n]) else ps[j - 1];
  }

  lemma InsertedBack(c: Config, ps: Pages, n: nat, s: nat, a: nat, k: nat)
    requires c.Ok() && PagesOk(c, ps) && k <= |ps| && PlacedAt(ps, a, s, k)
    requires 0 < n <= s && n % c.blockAlign == 0 && s % c.pageAlign == 0
    ensures var ps' := InsertAt(ps, k, PageV(a, s, map[a := n]));
      a !in Frames(ps) && Frames(ps') == Frames(ps) + {a} && Without(ps', {a}) == ps
  {
    hide *;
    var q, before, after := PageV(a, s, map[a := n]), ps[..k], ps[k..];
    InsertedOk(c, ps, n, s, a, k);
    AroundInsert(ps, k, q);
    EndIs(q);
    OnlyThere(c, InsertAt(ps, k, q), k, a);
    WithoutOne(before, {a}, after, q);
    FramesOne(before, after, q);
    FramesConcat(before, after);
    DropNew(a, s, n);
    assert before + ([] + after) == before + after;
  }

  lemma TakenNewIs(c: Config, ps: Pages, n: nat, s: nat, a: nat, ps': Pages, k: nat)
    requires TakenNew(c, ps, n, s, a, ps', k)
    ensures k <= |ps| && PlacedAt(ps, a, s, k) && ps' == InsertAt(ps, k, PageV(a, s, map[a := n]))
  {
    hide NoFit, LowestGap;
  }

  lemma EndIs(p: PageV)
    ensures p.End() == p.addr + p.size
  {
  }

  lemma DropNew(a: nat, s: nat, n: nat)
    ensures Drop(PageV(a, s, map[a := n]), {a}) == []
    ensures PageV(a, s, map[a := n]).used.Keys == {a}
  {
    assert map[a := n] - {a} == map[];
  }

  /** Every successful allocation keeps the page invariant, and releasing its result undoes it exactly. */
  lemma AllocateKeeps(c: Config, ps: Pages, size: nat, a: nat, ps': Pages)
    requires c.Ok() && PagesOk(c, ps) && Allocates(c, ps, size, a, ps')
    ensures PagesOk(c, ps')
    ensures a !in Frames(ps) && Frames(ps') == Frames(ps) + {a} && Without(ps', {a}) == ps
  {
    var n := AlignUp(size, c.blockAlign);
    var s := AlignUp(n, c.pageAlign);
    if i: nat :| TakenFrom(ps, n, a, ps', i) {
      TakenFromOk(c, ps, n, a, ps', i);
      TakenFromBack(c, ps, n, a, ps', i);
    } else {
      var k: nat :| TakenNew(c, ps, n, s, a, ps', k);
      TakenNewIs(c, ps, n, s, a, ps', k);
      InsertedOk(c, ps, n, s, a, k);
      InsertedBack(c, ps, n, s, a, k);
    }
  }

  lemma AllocateAbove(c: Config, ps: Pages, size: nat, a: nat, ps': Pages)
    requires c.Ok() && Above(c, ps) && Allocates(c, ps, size, a, ps')
    ensures Above(c, ps')
  {
    var n := AlignUp(size, c.blockAlign);
    var s := AlignUp(n, c.pageAlign);
    if i: nat :| TakenFrom(ps, n, a, ps', i) {
      hide NoFit, BestFit;
      assert forall j | 0 <= j < |ps'| :: ps'[j].addr == ps[j].addr;
    } else {
      var k: nat :| TakenNew(c, ps, n, s, a, ps', k);
      TakenNewIs(c, ps, n, s, a, ps', k);
      assert forall j | 0 <= j < |ps'| && j != k :: ps'[j] == if j < k then ps[j] else ps[j - 1];
    }
  }

  /** The only gap of an empty page is the whole page. */
  lemma EmptyPageGap(p: PageV, n: nat, x: nat)
    requires p.used == map[] && 0 < n <= p.size
    ensures !NoFit(p, n)
    ensures BestFit(p, n, x) ==> x == p.addr
  {
    assert Gap(p, p.addr, p.size);
  }

  /** Inserting an empty page and taking n bytes of it is inserting a page with these bytes in use. */
  lemma NewFilled(ps: Pages, k: nat, a: nat, s: nat, n: nat)
    requires k <= |ps|
    ensures var qs := InsertAt(ps, k, PageV(a, s, map[]));
      k < |qs| && qs[k := Use(qs[k], a, n)] == InsertAt(ps, k, PageV(a, s, map[a := n]))
  {
    AroundInsert(ps, k, PageV(a, s, map[]));
    AroundInsert(ps, k, PageV(a, s, map[a := n]));
    assert map[][a := n] == map[a := n];
  }

  /** A page with n bytes in use that is inserted in a gap makes an allocation on a new page. */
  lemma NewTaken(c: Config, ps: Pages, n: nat, s: nat, a: nat, k: nat)
    requires PagesOk(c, ps) && k <= |ps| && 0 < n <= s
    requires forall j | 0 <= j < |ps| :: NoFit(ps[j], n)
    requires if ps == [] then a == c.base else LowestGap(c, ps, s, a)
    requires ps != [] && (forall j | 0 <= j < |ps| :: ps[j].addr < a) ==> a + s <= c.Limit()
    requires (forall j | 0 <= j < k :: ps[j].addr <= a) && (k < |ps| ==> a <= ps[k].addr)
    ensures TakenNew(c, ps, n, s, a, InsertAt(ps, k, PageV(a, s, map[a := n])), k)
  {
    hide NoFit, PageOk, InsertAt;
    NewPlace(c, ps, s, a, k);
  }

  lemma NewPlace(c: Config, ps: Pages, s: nat, a: nat, k: nat)
    requires PagesOk(c, ps) && k <= |ps| && 0 < s && Clear(ps, a, s)
    requires (forall j | 0 <= j < k :: ps[j].addr <= a) && (k < |ps| ==> a <= ps[k].addr)
    ensures (forall j | 0 <= j < k :: ps[j].End() <= a) && (forall j | k <= j < |ps| :: a + s <= ps[j].addr)
    ensures k == |ps| ==> forall j | 0 <= j < |ps| :: ps[j].addr < a
  {
    forall j | 0 <= j < |ps| ensures if j < k then ps[j].End() <= a else a + s <= ps[j].addr {
      assert PageOk(c, ps[j]);
      if k < j {
        assert ps[k].End() <= ps[j].addr && PageOk(c, ps[k]);
      }
    }
    assert forall j | 0 <= j < |ps| :: PageOk(c, ps[j]);
  }

  /** A new page stays below the limit unless it is the first one and larger than the capacity:
    the search for its address does not look at the capacity when there is no page yet. */
  lemma AllocateWithin(c: Config, ps: Pages, size: nat, a: nat, ps': Pages)
    requires c.Ok() && Within(c, ps) && PagesOk(c, ps) && Allocates(c, ps, size, a, ps')
    ensures Within(c, ps') <==> ps != [] || AlignUp(AlignUp(size, c.blockAlign), c.pageAlign) <= c.capacity
    ensures Within(c, ps') ==> c.base <= a && a + AlignUp(size, c.blockAlign) <= c.Limit()
  {
    var n := AlignUp(size, c.blockAlign);
    var s := AlignUp(n, c.pageAlign);
    hide PagesOk, NoFit, BestFit, AlignUp, Within, TakenFrom, TakenNew;
    if i: nat :| TakenFrom(ps, n, a, ps', i) {
      TakenFromOk(c, ps, n, a, ps', i);
      OldWithin(c, ps, n, a, ps', i);
    } else {
      var k: nat :| TakenNew(c, ps, n, s, a, ps', k);
      NewWithin(c, ps, n, s, a, ps', k);
    }
  }

  lemma OldWithin(c: Config, ps: Pages, n: nat, a: nat, ps': Pages, i: nat)
    requires Within(c, ps) && TakenFrom(ps, n, a, ps', i) && ps[i].addr <= a && a + n <= ps[i].End()
    ensures ps != [] && Within(c, ps') && c.base <= a && a + n <= c.Limit()
  {
    hide NoFit, BestFit;
    assert ps'[i].addr == ps[i].addr && ps'[i].End() == ps[i].End();
  }

  lemma NewWithin(c: Config, ps: Pages, n: nat, s: nat, a: nat, ps': Pages, k: nat)
    requires Within(c, ps) && TakenNew(c, ps, n, s, a, ps', k) && n <= s
    ensures Within(c, ps') <==> ps != [] || s <= c.capacity
    ensures Within(c, ps') ==> c.base <= a && a + n <= c.Limit()
  {
    hide NoFit;
    var q := PageV(a, s, map[a := n]);
    assert forall j | 0 <= j < |ps'| :: ps'[j] == if j < k then ps[j] else if j == k then q else ps[j - 1];
    assert ps'[k] == q;
    if 0 <= k < |ps| {
      assert q.End() <= ps[k].addr;
    }
  }

  lemma AlignUpExact(n: nat, a: nat)
    requires 0 < a && n % a == 0
    ensures AlignUp(n, a) == n
  {
    var r := AlignUp(n, a);
    if n < r {
      ModDiff(r, n, a);
    }
  }

  /** Every first request larger than the capacity is granted, past the end of the memory. */
  lemma FirstPageIgnoresCapacity(c: Config, size: nat)
    requires c.Ok() && c.capacity < size
    ensures exists ps' :: Allocates(c, [], size, c.base, ps') && !Within(c, ps')
  {
    var n := AlignUp(size, c.blockAlign);
    var s := AlignUp(n, c.pageAlign);
    var ps' := InsertAt([], 0, PageV(c.base, s, map[c.base := n]));
    assert TakenNew(c, [], n, s, c.base, ps', 0);
    assert ps'[0].End() == c.base + s;
    assert Allocates(c, [], size, c.base, ps') && !Within(c, ps');
  }

  // ---- accounting ----

  ghost function Bytes(p: PageV): nat {
    Sum(p.used, p.addr, p.End())
  }

  /** The bytes of all used blocks. */
  ghost function Total(ps: Pages): nat {
    if ps == [] then 0 else Bytes(ps[0]) + Total(ps[1..])
  }

  lemma {:induction false} TotalConcat(ps: Pages, qs: Pages)
    ensures Total(ps + qs) == Total(ps) + Total(qs)
  {
    if ps == [] {
      assert ps + qs == qs;
    } else {
      assert (ps + qs)[1..] == ps[1..] + qs;
      TotalConcat(ps[1..], qs);
    }
  }

  lemma TotalOne(ps: Pages, qs: Pages, p: PageV)
    ensures Total(ps + ([p] + qs)) == Total(ps) + Bytes(p) + Total(qs)
  {
    TotalConcat(ps, [p] + qs);
    assert ([p] + qs)[1..] == qs;
  }

  /** An allocation adds the rounded size to the total. */
  lemma AllocateTotal(c: Config, ps: Pages, size: nat, a: nat, ps': Pages)
    requires c.Ok() && PagesOk(c, ps) && Allocates(c, ps, size, a, ps')
    ensures Total(ps') == Total(ps) + AlignUp(size, c.blockAlign)
  {
    var n := AlignUp(size, c.blockAlign);
    var s := AlignUp(n, c.pageAlign);
    if i: nat :| TakenFrom(ps, n, a, ps', i) {
      TakenFromTotal(c, ps, n, a, ps', i);
    } else {
      var k: nat :| TakenNew(c, ps, n, s, a, ps', k);
      TakenNewIs(c, ps, n, s, a, ps', k);
      InsertedTotal(ps, n, s, a, k);
    }
  }

  lemma TakenFromTotal(c: Config, ps: Pages, n: nat, a: nat, ps': Pages, i: nat)
    requires PagesOk(c, ps) && TakenFrom(ps, n, a, ps', i) && 0 < n && n % c.blockAlign == 0
    ensures Total(ps') == Total(ps) + n
  {
    TakenFromOk(c, ps, n, a, ps', i);
    var p, q := ps[i], Use(ps[i], a, n);
    Around(ps, i, q);
    SumInsert(p.used, p.addr, p.End(), a, n);
    assert Bytes(q) == Bytes(p) + n;
    hide *;
    TotalOne(ps[..i], ps[i + 1..], p);
    TotalOne(ps[..i], ps[i + 1..], q);
  }

  lemma InsertedTotal(ps: Pages, n: nat, s: nat, a: nat, k: nat)
    requires k <= |ps| && 0 < n <= s
    ensures Total(InsertAt(ps, k, PageV(a, s, map[a := n]))) == Total(ps) + n
  {
    hide *;
    var q := PageV(a, s, map[a := n]);
    AroundInsert(ps, k, q);
    TotalConcat(ps[..k], ps[k..]);
    TotalOne(ps[..k], ps[k..], q);
    BytesNew(a, s, n);
  }

  lemma BytesNew(a: nat, s: nat, n: nat)
    requires 0 < s
    ensures Bytes(PageV(a, s, map[a := n])) == n
  {
    SumInsert(map[], a, a + s, a, n);
    SumEmpty(a, a + s);
    assert map[][a := n] == map[a := n];
  }

  lemma {:induction false} SumEmpty(lo: nat, hi: nat)
    ensures Sum(map[], lo, hi) == 0
    decreases hi
  {
    if lo < hi {
      SumEmpty(lo, hi - 1);
    }
  }

  /** The used bytes never exceed the capacity, so the free space never underflows. */
  lemma TotalWithin(c: Config, ps: Pages)
    requires PagesOk(c, ps) && Within(c, ps)
    ensures Total(ps) <= c.capacity
  {
    TotalBelow(c, ps, c.base);
  }

  lemma {:induction false} TotalBelow(c: Config, ps: Pages, lo: nat)
    requires PagesOk(c, ps) && Within(c, ps) && c.base <= lo <= c.Limit()
    requires forall i | 0 <= i < |ps| :: lo <= ps[i].addr
    ensures Total(ps) <= c.Limit() - lo
  {
    if ps != [] {
      var p := ps[0];
      SumBound(p.used, p.addr, p.End(), p.End());
      assert forall i | 0 <= i < |ps[1..]| :: ps[1..][i] == ps[i + 1];
      TotalBelow(c, ps[1..], p.End());
    }
  }

  // ---- release ----

  /** A release touches only the page that uses the address. */
  lemma ReleaseAt(c: Config, ps: Pages, i: nat, a: nat)
    requires PagesOk(c, ps) && i < |ps| && a in ps[i].used
    ensures Without(ps, {a}) == ps[..i] + (Drop(ps[i], {a}) + ps[i + 1..])
  {
    assert ps[i].addr <= a < ps[i].End();
    OnlyThere(c, ps, i, a);
    Around(ps, i, ps[i]);
    WithoutOne(ps[..i], {a}, ps[i + 1..], ps[i]);
  }

  lemma ReleaseTotal(c: Config, ps: Pages, i: nat, a: nat)
    requires PagesOk(c, ps) && i < |ps| && a in ps[i].used
    ensures Total(ps) == Total(Without(ps, {a})) + ps[i].used[a]
  {
    var p := ps[i];
    ReleaseAt(c, ps, i, a);
    SumRemove(p.used, p.addr, p.End(), a);
    DropTotal(p, {a});
    hide *;
    Around(ps, i, p);
    TotalOne(ps[..i], ps[i + 1..], p);
    TotalConcat(ps[..i], Drop(p, {a}) + ps[i + 1..]);
    TotalConcat(Drop(p, {a}), ps[i + 1..]);
  }

  lemma DropTotal(p: PageV, A: set<nat>)
    ensures Total(Drop(p, A)) == Sum(p.used - A, p.addr, p.End())
  {
    if p.used - A == map[] {
      SumEmpty(p.addr, p.End());
    } else {
      assert Drop(p, A)[1..] == [];
    }
  }

  lemma DropOk(c: Config, p: PageV, A: set<nat>)
    requires PageOk(c, p)
    ensures |Drop(p, A)| <= 1
    ensures forall q <- Drop(p, A) :: PageOk(c, q) && q.addr == p.addr && q.End() == p.End()
    ensures Frames(Drop(p, A)) == p.used.Keys - A
  {
    if p.used - A != map[] {
      assert Drop(p, A)[1..] == [];
    } else {
      assert p.used.Keys - A == {};
    }
  }

  /** q has the bounds of a page of ps. */
  ghost predicate FromPage(q: PageV, ps: Pages) {
    exists i | 0 <= i < |ps| :: q.addr == ps[i].addr && q.End() == ps[i].End()
  }

  lemma NothingOk(c: Config)
    ensures PagesOk(c, [])
  {
  }

  lemma TailOk(c: Config, ps: Pages)
    requires ps != [] && PagesOk(c, ps)
    ensures PageOk(c, ps[0]) && PagesOk(c, ps[1..])
  {
    hide PageOk;
    assert forall i | 0 <= i < |ps[1..]| :: ps[1..][i] == ps[i + 1];
  }

  /** Every release keeps the page invariant and removes exactly the released addresses. */
  lemma {:induction false} ReleaseKeeps(c: Config, ps: Pages, A: set<nat>)
    requires PagesOk(c, ps)
    ensures PagesOk(c, Without(ps, A)) && Frames(Without(ps, A)) == Frames(ps) - A
    ensures forall q <- Without(ps, A) :: FromPage(q, ps)
  {
    hide PagesOk, PageOk, Drop, FromPage;
    NothingOk(c);
    if ps != [] {
      var tail := ps[1..];
      TailOk(c, ps);
      ReleaseKeeps(c, tail, A);
      DropOk(c, ps[0], A);
      FramesConcat(Drop(ps[0], A), Without(tail, A));
      ReleaseStep(c, ps, A);
    }
  }

  lemma ReleaseStep(c: Config, ps: Pages, A: set<nat>)
    requires ps != [] && PagesOk(c, ps) && PagesOk(c, Without(ps[1..], A))
    requires forall q <- Without(ps[1..], A) :: FromPage(q, ps[1..])
    requires |Drop(ps[0], A)| <= 1
    requires forall q <- Drop(ps[0], A) :: PageOk(c, q) && q.addr == ps[0].addr && q.End() == ps[0].End()
    ensures PagesOk(c, Drop(ps[0], A) + Without(ps[1..], A))
    ensures forall q <- Drop(ps[0], A) + Without(ps[1..], A) :: FromPage(q, ps)
  {
    hide PageOk, Drop, Without, FromPage, PagesOk;
    var d, w := Drop(ps[0], A), Without(ps[1..], A);
    forall q <- w ensures ps[0].End() <= q.addr && FromPage(q, ps) {
      FromTail(c, ps, q);
    }
    forall q <- d ensures FromPage(q, ps) {
      FromFirst(ps, q);
    }
    Prepended(c, ps[0], d, w);
  }

  lemma FromTail(c: Config, ps: Pages, q: PageV)
    requires ps != [] && PagesOk(c, ps) && FromPage(q, ps[1..])
    ensures ps[0].End() <= q.addr && FromPage(q, ps)
  {
    hide PageOk;
    var i :| 0 <= i < |ps[1..]| && q.addr == ps[1..][i].addr && q.End() == ps[1..][i].End();
    assert ps[i + 1] == ps[1..][i];
  }

  lemma FromFirst(ps: Pages, q: PageV)
    requires ps != [] && q.addr == ps[0].addr && q.End() == ps[0].End()
    ensures FromPage(q, ps)
  {
  }

  /** What is left of a page, in front of pages that start behind it. */
  lemma Prepended(c: Config, p: PageV, d: Pages, w: Pages)
    requires PagesOk(c, w) && |d| <= 1 && (forall q <- d :: PageOk(c, q) && q.End() == p.End()) && forall q <- w :: p.End() <= q.addr
    ensures PagesOk(c, d + w)
  {
    hide PageOk;
    assert forall i | 0 <= i < |d + w| :: (d + w)[i] == if i < |d| then d[i] else w[i - |d|];
  }

  lemma ReleaseAbove(c: Config, ps: Pages, A: set<nat>)
    requires PagesOk(c, ps) && Above(c, ps)
    ensures Above(c, Without(ps, A))
  {
    hide PagesOk, Without;
    ReleaseKeeps(c, ps, A);
    forall i | 0 <= i < |Without(ps, A)| ensures c.base <= Without(ps, A)[i].addr {
      assert FromPage(Without(ps, A)[i], ps);
    }
  }

  lemma ReleaseWithin(c: Config, ps: Pages, A: set<nat>)
    requires PagesOk(c, ps) && Within(c, ps)
    ensures Within(c, Without(ps, A))
  {
    hide PagesOk, Without;
    ReleaseKeeps(c, ps, A);
    forall i | 0 <= i < |Without(ps, A)| ensures c.base <= Without(ps, A)[i].addr && Without(ps, A)[i].End() <= c.Limit() {
      assert FromPage(Without(ps, A)[i], ps);
    }
  }

  // ---- reserve ----

  lemma PlaceOf(c: Config, ps: Pages, a: nat, s: nat, k: nat)
    requires PagesOk(c, ps) && k <= |ps| && 0 < s && Apart(ps, a, s)
    requires (forall j | 0 <= j < k :: ps[j].addr <= a) && (k < |ps| ==> a <= ps[k].addr)
    ensures PlacedAt(ps, a, s, k)
  {
    assert Clear(ps, a, s);
    NewPlace(c, ps, s, a, k);
  }

  /** A reservation keeps the page invariant, adds its rounded size to the total, and releasing it undoes it. */
  lemma ReserveKeeps(c: Config, ps: Pages, a: nat, size: nat, ps': Pages)
    requires c.Ok() && PagesOk(c, ps) && Reserves(c, ps, a, size, ps')
    ensures PagesOk(c, ps') && a !in Frames(ps) && Frames(ps') == Frames(ps) + {a} && Without(ps', {a}) == ps
    ensures Total(ps') == Total(ps) + AlignUp(size, c.pageAlign)
    ensures Above(c, ps) && c.base <= a ==> Above(c, ps')
    ensures Within(c, ps) ==> (Within(c, ps') <==> c.base <= a)
  {
    var s := AlignUp(size, c.pageAlign);
    var k: nat :| PlacedAt(ps, a, s, k) && ps' == InsertAt(ps, k, PageV(a, s, map[a := s]));
    hide PagesOk, PageOk, Reserves, Apart, Without, Frames, Total, AlignUp, Config.Ok;
    MultipleTrans(s, c.pageAlign, c.blockAlign);
    InsertedOk(c, ps, s, s, a, k);
    InsertedBack(c, ps, s, s, a, k);
    InsertedTotal(ps, s, s, a, k);
    InsertedWithin(c, ps, a, s, k);
  }

  lemma InsertedWithin(c: Config, ps: Pages, a: nat, s: nat, k: nat)
    requires k <= |ps| && a + s <= c.Limit()
    ensures var qs := InsertAt(ps, k, PageV(a, s, map[a := s]));
      (Above(c, ps) && c.base <= a ==> Above(c, qs)) && (Within(c, ps) ==> (Within(c, qs) <==> c.base <= a))
  {
    var q := PageV(a, s, map[a := s]);
    var qs := InsertAt(ps, k, q);
    assert forall j | 0 <= j < |qs| :: qs[j] == if j < k then ps[j] else if j == k then q else ps[j - 1];
    assert qs[k] == q;
  }

  /** Reservations that only touch a page are refused, although nothing overlaps. */
  lemma TouchingRefused(c: Config, ps: Pages, i: nat, size: nat)
    requires c.Ok() && i < |ps| && 0 < size
    ensures forall ps' :: !Reserves(c, ps, ps[i].End(), size, ps')
  {
    var s := AlignUp(size, c.pageAlign);
    assert !Apart(ps, ps[i].End(), s);
  }
}
