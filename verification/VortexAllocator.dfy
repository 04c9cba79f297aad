/** The page allocator: a list of pages sorted by address, proved against the operations of AllocatorSpec.

  list is the page list as a sequence, view its pages as values, and reprs the objects of each page. */
module VortexAllocator {
  import opened Arith
  import opened Base
  import opened Blocks
  import Intervals
  import opened Pages
  import opened AllocatorSpec
  import opened Bits
  import opened Sums64

  ghost function PageAt(list: seq<Page>, i: int): Page? {
    if 0 <= i < |list| then list[i] else null
  }

  /** Page p is valid, has the footprint r and the contents v. */
  ghost predicate PageIs(p: Page, r: set<object>, v: PageV, blockAlign: nat)
    reads p`usedList, p`U, p`usedAt, p`used, p`freeMList, p`M, p`freeAt, p`free, p`freeSList, p`S
    reads r - {p}
  {
    p.Repr() == r && p.Valid() && p.blockAlign == blockAlign && v == PageV(p.addr, p.size, p.used)
  }

  /** The footprints rs of the pages of list are pairwise disjoint parts of R. */
  ghost predicate Separate(list: seq<Page>, rs: seq<set<object>>, R: set<object>) {
    && |rs| == |list|
    && (forall i | 0 <= i < |list| :: list[i] in rs[i] && rs[i] <= R)
    && (forall i, j | 0 <= i < |list| && 0 <= j < |list| && i != j :: rs[i] !! rs[j])
  }

  lemma SeparateUpdate(list: seq<Page>, rs: seq<set<object>>, R: set<object>, i: nat, r: set<object>)
    requires Separate(list, rs, R) && i < |list| && list[i] in r && r * R <= rs[i]
    ensures Separate(list, rs[i := r], R + r)
  {
  }

  lemma SeparateInsert(list: seq<Page>, rs: seq<set<object>>, R: set<object>, k: nat, p: Page, r: set<object>)
    requires Separate(list, rs, R) && k <= |list| && p in r && r !! R
    ensures |rs| == |list|
    ensures Separate(list[..k] + [p] + list[k..], rs[..k] + [r] + rs[k..], R + r)
  {
    var l', rs' := list[..k] + [p] + list[k..], rs[..k] + [r] + rs[k..];
    assert forall j | 0 <= j < |l'| :: l'[j] == if j < k then list[j] else if j == k then p else list[j - 1];
    assert forall j | 0 <= j < |rs'| :: rs'[j] == if j < k then rs[j] else if j == k then r else rs[j - 1];
  }

  lemma SeparateRemove(list: seq<Page>, rs: seq<set<object>>, R: set<object>, k: nat)
    requires Separate(list, rs, R) && k < |list|
    ensures |rs| == |list|
    ensures Separate(list[..k] + list[k + 1..], rs[..k] + rs[k + 1..], R)
  {
    var l', rs' := list[..k] + list[k + 1..], rs[..k] + rs[k + 1..];
    assert forall j | 0 <= j < |l'| :: l'[j] == if j < k then list[j] else list[j + 1];
    assert forall j | 0 <= j < |rs'| :: rs'[j] == if j < k then rs[j] else rs[j + 1];
  }

  lemma SeparatePage(list: seq<Page>, rs: seq<set<object>>, R: set<object>, i: nat)
    requires Separate(list, rs, R) && i < |list|
    ensures |rs| == |list| && list[i] in rs[i] && rs[i] <= R
    ensures forall j | 0 <= j < |list| && j != i :: rs[i] !! rs[j] && list[j] in rs[j] && rs[j] <= R && list[j] != list[i]
  {
  }

  class VortexMemoryAllocator {
    const baseAddress: nat
    const capacity: nat
    const pageAlign: nat
    const blockAlign: nat
    var pages: Page?
    var allocatedBytes: nat

    /** The pages of the list, their footprints, and their contents as values. */
    ghost var list: seq<Page>
    ghost var reprs: seq<set<object>>
    ghost var view: AllocatorSpec.Pages
    ghost var Repr: set<object>

    ghost function Cfg(): Config {
      Config(baseAddress, capacity, pageAlign, blockAlign)
    }

    ghost predicate Linked()
      reads `pages, `list, list`next
    {
      pages == PageAt(list, 0) && forall i | 0 <= i < |list| :: list[i].next == PageAt(list, i + 1)
    }

    ghost predicate PagesAre()
      reads `list, `reprs, `view, `Repr, Repr - {this}
    {
      && |view| == |list|
      && this in Repr && Separate(list, reprs, Repr - {this})
      && forall i | 0 <= i < |list| :: PageIs(list[i], reprs[i], view[i], blockAlign)
    }

    /** The heap structure: a linked list of valid pages that share no block. */
    ghost predicate Shape()
      reads `pages, `list, `reprs, `view, `Repr, Repr - {this}
    {
      Cfg().Ok() && PagesAre() && Linked()
    }

    ghost predicate Valid()
      reads this, Repr - {this}
    {
      Shape() && StateOk(Cfg(), view) && allocatedBytes == Total(view)
    }

    constructor (baseAddress: nat, capacity: nat, pageAlign: nat, blockAlign: nat)
      requires Config(baseAddress, capacity, pageAlign, blockAlign).Ok()
      ensures Valid() && fresh(Repr) && view == [] && Cfg() == Config(baseAddress, capacity, pageAlign, blockAlign)
    {
      this.baseAddress, this.capacity, this.pageAlign, this.blockAlign := baseAddress, capacity, pageAlign, blockAlign;
      pages, allocatedBytes := null, 0;
      list, reprs, view, Repr := [], [], [], {this};
    }

    // ---- one page at a time ----

    lemma OpenShape(i: nat)
      requires Shape() && i < |list|
      ensures Cfg().Ok() && Linked() && PagesBut(i) && this in Repr && i < |view|
      ensures Separate(list, reprs, Repr - {this}) && PageIs(list[i], reprs[i], view[i], blockAlign)
      ensures list[i].Valid() && list[i].blockAlign == blockAlign && list[i].Repr() == reprs[i]
      ensures view[i] == PageV(list[i].addr, list[i].size, list[i].used)
    {
      hide Page.Valid, Page.Repr, Separate, Linked;
    }

    lemma CloseShape()
      requires Cfg().Ok() && Linked() && PagesAre()
      ensures Shape()
    {
      hide Linked, PagesAre, Config.Ok;
    }

    /** All pages are as recorded, except that page i may have changed. */
    ghost predicate PagesBut(i: nat)
      reads `list, `reprs, `view, `Repr, Repr - {this}
    {
      && |view| == |list| && i < |list| && this in Repr && Separate(list, reprs, Repr - {this})
      && forall j | 0 <= j < |list| && j != i :: PageIs(list[j], reprs[j], view[j], blockAlign)
    }

    /** Records the new footprint and contents of page i. */
    ghost method Record(i: nat, page: Page)
      requires Cfg().Ok() && Linked() && PagesBut(i) && page == list[i]
      requires page.Valid() && page.blockAlign == blockAlign && page.Repr() * Repr <= reprs[i]
      modifies `reprs, `view, `Repr
      ensures Shape() && Repr == old(Repr) + page.Repr()
      ensures i < |old(view)| && view == old(view)[i := PageV(page.addr, page.size, page.used)]
    {
      hide Page.Valid, Page.Repr, Config.Ok, Separate, Linked;
      SeparatePage(list, reprs, Repr - {this}, i);
      SeparateUpdate(list, reprs, Repr - {this}, i, page.Repr());
      assert Repr - {this} + page.Repr() == Repr + page.Repr() - {this};
      Repr := Repr + page.Repr();
      reprs := reprs[i := page.Repr()];
      view := view[i := PageV(page.addr, page.size, page.used)];
      assert PageIs(page, reprs[i], view[i], blockAlign);
      hide PageIs;
      assert PagesAre();
    }

    /** Runs the page's own allocation; the other pages keep what is recorded of them. */
    method AllocatePage(page: Page, freeBlock: Block, n: nat, ghost i: nat)
      requires Shape() && i < |list| && page == list[i] && freeBlock in page.M
      requires 0 < n <= freeBlock.size && n % blockAlign == 0
      modifies Repr - {this}
      ensures Linked() && PagesBut(i) && page.Valid()
      ensures page.Repr() * Repr <= reprs[i] && fresh(page.Repr() - reprs[i])
      ensures PageV(page.addr, page.size, page.used) == Use(view[i], freeBlock.addr, n)
    {
      hide Page.Valid, Page.Repr, Config.Ok, PagesOk, Shape, Linked, Separate, PageIs;
      OpenShape(i);
      SeparatePage(list, reprs, Repr - {this}, i);
      page.Allocate(n, freeBlock);
    }

    /** Takes n bytes of a free block of page i. */
    method AllocateIn(page: Page, freeBlock: Block, n: nat, ghost i: nat)
      requires Shape() && i < |list| && page == list[i] && freeBlock in page.M
      requires 0 < n <= freeBlock.size && n % blockAlign == 0
      modifies Repr
      ensures Shape() && fresh(Repr - old(Repr)) && allocatedBytes == old(allocatedBytes)
      ensures i < |old(view)| && view == old(view)[i := Use(old(view)[i], freeBlock.addr, n)]
    {
      hide *;
      OpenShape(i);
      SeparatePage(list, reprs, Repr - {this}, i);
      AllocatePage(page, freeBlock, n, i);
      Record(i, page);
    }

    method ReleasePage(page: Page, usedBlock: Block, ghost i: nat)
      requires Shape() && i < |list| && page == list[i] && usedBlock in page.U
      modifies Repr - {this}
      ensures Linked() && PagesBut(i) && page.Valid()
      ensures page.Repr() * Repr <= reprs[i] && fresh(page.Repr() - reprs[i])
      ensures usedBlock.addr in view[i].used
      ensures PageV(page.addr, page.size, page.used) == view[i].(used := view[i].used - {usedBlock.addr})
    {
      hide Page.Valid, Page.Repr, Config.Ok, PagesOk, Shape, Linked, Separate, PageIs;
      OpenShape(i);
      SeparatePage(list, reprs, Repr - {this}, i);
      page.Release(usedBlock);
    }

    /** Returns a used block of page i. */
    method ReleaseIn(page: Page, usedBlock: Block, ghost i: nat)
      requires Shape() && i < |list| && page == list[i] && usedBlock in page.U
      modifies Repr
      ensures Shape() && fresh(Repr - old(Repr)) && allocatedBytes == old(allocatedBytes) && list == old(list)
      ensures i < |old(view)| && usedBlock.addr in old(view)[i].used
      ensures view == old(view)[i := old(view)[i].(used := old(view)[i].used - {usedBlock.addr})]
    {
      hide *;
      OpenShape(i);
      SeparatePage(list, reprs, Repr - {this}, i);
      ReleasePage(page, usedBlock, i);
      Record(i, page);
    }

    // ---- the list of pages ----

    lemma CloseLinked()
      requires pages == PageAt(list, 0) && forall i | 0 <= i < |list| :: list[i].next == PageAt(list, i + 1)
      ensures Linked()
    {
    }

    lemma OpenPages()
      requires PagesAre()
      ensures |view| == |list| == |reprs| && this in Repr && Separate(list, reprs, Repr - {this})
      ensures forall i | 0 <= i < |list| :: PageIs(list[i], reprs[i], view[i], blockAlign) && this !in reprs[i]
    {
      hide PageIs;
    }

    lemma ClosePages()
      requires |view| == |list| && this in Repr && Separate(list, reprs, Repr - {this})
      requires forall i | 0 <= i < |list| :: PageIs(list[i], reprs[i], view[i], blockAlign)
      ensures PagesAre()
    {
      hide PageIs;
    }

    /** Records that newPage, with footprint r and contents v, now stands at place k of the list. */
    ghost method RecordNew(k: nat, newPage: Page, r: set<object>, v: PageV)
      requires k <= |list| && PagesAre() && PageIs(newPage, r, v, blockAlign) && newPage in r && r !! Repr
      modifies `list, `reprs, `view, `Repr
      ensures PagesAre() && Repr == old(Repr) + r
      ensures list == old(list)[..k] + [newPage] + old(list)[k..]
      ensures k <= |old(view)| && view == InsertAt(old(view), k, v)
    {
      hide Page.Valid, Page.Repr, PagesAre, Separate, PageIs;
      OpenPages();
      SeparateInsert(list, reprs, Repr - {this}, k, newPage, r);
      assert Repr - {this} + r == Repr + r - {this};
      list, reprs, view := list[..k] + [newPage] + list[k..], reprs[..k] + [r] + reprs[k..], InsertAt(view, k, v);
      Repr := Repr + r;
      forall i | 0 <= i < |list| ensures PageIs(list[i], reprs[i], view[i], blockAlign) {
        if i < k {
          assert PageIs(old(list)[i], old(reprs)[i], old(view)[i], blockAlign);
        } else if k < i {
          assert PageIs(old(list)[i - 1], old(reprs)[i - 1], old(view)[i - 1], blockAlign);
        }
      }
      ClosePages();
    }

    /** Writing a next pointer leaves the pages as they are. */
    method SetNext(page: Page, q: Page?, ghost k: nat)
      requires PagesAre() && k < |list| && page == list[k]
      modifies page`next
      ensures PagesAre() && page.next == q
    {
      hide PagesAre, Separate, PageIs;
      OpenPages();
      SeparatePage(list, reprs, Repr - {this}, k);
      page.next := q;
      forall i | 0 <= i < |list| ensures PageIs(list[i], reprs[i], view[i], blockAlign) {
        assert old(PageIs(list[i], reprs[i], view[i], blockAlign));
      }
      ClosePages();
    }

    lemma ViewAt()
      requires PagesAre()
      ensures |view| == |list| && this in Repr
      ensures forall i | 0 <= i < |list| :: list[i].addr == view[i].addr && list[i].size == view[i].size && list[i] in Repr
      ensures forall i, j | 0 <= i < |list| && 0 <= j < |list| && i != j :: list[i] != list[j]
    {
      hide Page.Valid, Page.Repr;
    }

    /** The search of createPage: the last page before addr, when it is not before the first page. */
    method FindPlace(addr: nat) returns (current: Page, ghost k: nat)
      requires Linked() && PagesAre() && list != [] && list[0].addr <= addr
      ensures 1 <= k <= |list| && current == list[k - 1]
      ensures forall j | 0 <= j < k :: view[j].addr <= addr
      ensures k < |list| ==> addr <= view[k].addr
    {
      hide PagesAre;
      ViewAt();
      current, k := pages, 1;
      while current.next != null && current.next.addr < addr
        invariant 1 <= k <= |list| && current == list[k - 1]
        invariant forall j | 0 <= j < k :: view[j].addr <= addr
        decreases |list| - k
      {
        current := current.next;
        k := k + 1;
      }
    }

    lemma LinkedAt()
      requires Linked()
      ensures pages == PageAt(list, 0) && forall i | 0 <= i < |list| :: list[i].next == PageAt(list, i + 1)
    {
    }

    /** Puts a new page at the head of the list. */
    method LinkFirst(newPage: Page, ghost r: set<object>, ghost v: PageV)
      requires Linked() && PagesAre() && PageIs(newPage, r, v, blockAlign) && newPage in r && r !! Repr
      modifies this, newPage`next
      ensures Linked() && PagesAre() && Repr == old(Repr) + r && allocatedBytes == old(allocatedBytes)
      ensures list == old(list)[..0] + [newPage] + old(list)[0..] && view == InsertAt(old(view), 0, v)
      ensures PageIs(newPage, r, v, blockAlign)
    {
      hide Page.Valid, Page.Repr, PagesAre, Linked, PageIs;
      LinkedAt();
      ViewAt();
      newPage.next := pages;
      pages := newPage;
      RecordNew(0, newPage, r, v);
      CloseLinked();
    }

    /** Puts a new page after current, the page at place k - 1. */
    method LinkAfter(newPage: Page, current: Page, ghost k: nat, ghost r: set<object>, ghost v: PageV)
      requires Linked() && PagesAre() && PageIs(newPage, r, v, blockAlign) && newPage in r && r !! Repr
      requires 1 <= k <= |list| && current == list[k - 1]
      modifies this, newPage`next, current`next
      ensures Linked() && PagesAre() && Repr == old(Repr) + r && allocatedBytes == old(allocatedBytes)
      ensures list == old(list)[..k] + [newPage] + old(list)[k..]
      ensures k <= |old(view)| && view == InsertAt(old(view), k, v)
      ensures PageIs(newPage, r, v, blockAlign)
    {
      hide *;
      LinkedAt();
      ViewAt();
      newPage.next := current.next;
      SetNext(current, newPage, k - 1);
      RecordNew(k, newPage, r, v);
      LinkedAgain(old(list), k, newPage);
    }

    /** The links are right after newPage was linked in behind the page at place k - 1. */
    lemma LinkedAgain(before: seq<Page>, k: nat, newPage: Page)
      requires 1 <= k <= |before| && list == before[..k] + [newPage] + before[k..] && pages == PageAt(before, 0)
      requires forall i | 0 <= i < |before| && i != k - 1 :: before[i].next == PageAt(before, i + 1)
      requires before[k - 1].next == newPage && newPage.next == PageAt(before, k)
      ensures Linked()
    {
      hide Linked;
      forall i | 0 <= i < |list| ensures list[i].next == PageAt(list, i + 1) {
        assert list[i] == if i < k then before[i] else if i == k then newPage else before[i - 1];
      }
      CloseLinked();
    }

    lemma NewPageIs(p: Page, r: set<object>)
      requires p.Valid() && p.blockAlign == blockAlign && p.Repr() == r
      ensures PageIs(p, r, PageV(p.addr, p.size, p.used), blockAlign)
    {
    }

    lemma ShapeParts()
      requires Shape()
      ensures Cfg().Ok() && Linked() && PagesAre()
    {
    }

    lemma PageAtPlace(k: nat, p: Page)
      requires Shape() && k < |list| && list[k] == p
      ensures k < |view| && p.Valid() && p.blockAlign == blockAlign && view[k] == PageV(p.addr, p.size, p.used)
    {
      hide Page.Valid, Page.Repr, Separate, Linked;
    }

    /** Creates a page and inserts it into the list in address order, at place k. */
    method CreatePage(addr: nat, size: nat) returns (newPage: Page, ghost k: nat)
      requires Shape() && 0 < size && size % blockAlign == 0
      modifies this, Repr
      ensures Shape() && fresh(Repr - old(Repr)) && allocatedBytes == old(allocatedBytes)
      ensures k <= |old(view)| && view == InsertAt(old(view), k, PageV(addr, size, map[]))
      ensures k < |list| && newPage == list[k]
      ensures forall j | 0 <= j < k :: old(view)[j].addr <= addr
      ensures k < |old(view)| ==> addr <= old(view)[k].addr
    {
      hide Page.Valid, Page.Repr, PagesAre, Linked, Shape, PageIs, Config.Ok;
      ShapeParts();
      LinkedAt();
      ViewAt();
      newPage := new Page(addr, size, blockAlign);
      ghost var r := newPage.Repr();
      assert allocated(r);
      NewPageIs(newPage, r);
      if pages == null || pages.addr > newPage.addr {
        k := 0;
        LinkFirst(newPage, r, PageV(addr, size, map[]));
      } else {
        var current;
        current, k := FindPlace(newPage.addr);
        LinkAfter(newPage, current, k, r, PageV(addr, size, map[]));
      }
      CloseShape();
    }

    /** The search of deletePage: the page before the given one. */
    method FindPrevious(page: Page, ghost i: nat) returns (prevPage: Page?)
      requires Linked() && PagesAre() && i < |list| && list[i] == page
      ensures prevPage == PageAt(list, i - 1)
    {
      hide PagesAre;
      ViewAt();
      prevPage := null;
      var currPage := pages;
      ghost var k := 0;
      while currPage != page
        invariant k <= i && currPage == list[k] && prevPage == PageAt(list, k - 1)
        decreases |list| - k
      {
        prevPage := currPage;
        currPage := currPage.next;
        k := k + 1;
      }
    }

    /** Records that the page at place k has left the list. */
    ghost method RecordRemove(k: nat)
      requires k < |list| && PagesAre()
      modifies `list, `reprs, `view
      ensures PagesAre() && list == old(list)[..k] + old(list)[k + 1..]
      ensures k < |old(view)| && view == old(view)[..k] + old(view)[k + 1..]
    {
      hide Page.Valid, Page.Repr, PagesAre, Separate, PageIs;
      OpenPages();
      SeparateRemove(list, reprs, Repr - {this}, k);
      list, reprs, view := list[..k] + list[k + 1..], reprs[..k] + reprs[k + 1..], view[..k] + view[k + 1..];
      forall i | 0 <= i < |list| ensures PageIs(list[i], reprs[i], view[i], blockAlign) {
        var j := if i < k then i else i + 1;
        assert PageIs(old(list)[j], old(reprs)[j], old(view)[j], blockAlign);
      }
      ClosePages();
    }

    /** Takes the page at place i off the list. */
    method DeletePage(page: Page, ghost i: nat)
      requires Shape() && i < |list| && list[i] == page
      modifies this, Repr
      ensures Shape() && Repr == old(Repr) && allocatedBytes == old(allocatedBytes)
      ensures i < |old(view)| && view == old(view)[..i] + old(view)[i + 1..]
    {
      hide *;
      ShapeParts();
      LinkedAt();
      ViewAt();
      PlaceBefore(i);
      var prevPage := FindPrevious(page, i);
      if prevPage != null {
        SetNext(prevPage, page.next, i - 1);
      } else {
        pages := page.next;
      }
      RecordRemove(i);
      UnlinkedAgain(old(list), i);
      CfgIs();
      CloseShape();
    }

    lemma PlaceBefore(i: nat)
      requires i < |list|
      ensures PageAt(list, i - 1) == if i == 0 then null else list[i - 1]
    {
    }

    /** The links are right after the page at place k was taken out. */
    lemma UnlinkedAgain(before: seq<Page>, k: nat)
      requires k < |before| && list == before[..k] + before[k + 1..] && pages == PageAt(before, if k == 0 then 1 else 0)
      requires forall i | 0 <= i < |before| && i != k - 1 :: before[i].next == PageAt(before, i + 1)
      requires k > 0 ==> before[k - 1].next == PageAt(before, k + 1)
      ensures Linked()
    {
      hide Linked;
      forall i | 0 <= i < |list| ensures list[i].next == PageAt(list, i + 1) {
        assert list[i] == if i < k then before[i] else before[i + 1];
      }
      CloseLinked();
    }

    // ---- searching ----

    /** What the free list of page k says about the gaps of its used blocks. */
    lemma FreeFits(k: nat, n: nat)
      requires Shape() && k < |list| && k < |view|
      ensures NoFit(view[k], n) <==> forall f <- list[k].free :: list[k].free[f] < n
      ensures forall a <- list[k].free | Smallest(list[k].free, n, a) :: BestFit(view[k], n, a)
    {
      hide NoFit, BestFit, Smallest, Intervals.Partition, Intervals.Coalesced, Page.Valid, Shape;
      PageAtPlace(k, list[k]);
      list[k].FreePartition();
      NoFitIs(view[k], list[k].free, n);
      forall a <- list[k].free | Smallest(list[k].free, n, a) ensures BestFit(view[k], n, a) {
        BestFitIs(view[k], list[k].free, n, a);
      }
    }

    /** The search of allocate: the first page with a fitting free block. */
    method FindPage(n: nat) returns (page: Page?, freeBlock: Block?, ghost i: nat)
      requires Shape()
      ensures (page == null <==> freeBlock == null) && (page == null ==> forall j | 0 <= j < |view| :: NoFit(view[j], n))
      ensures page != null ==> i < |list| == |view| && page == list[i] && freeBlock in page.M && n <= freeBlock.size
      ensures page != null ==> BestFit(view[i], n, freeBlock.addr) && forall j | 0 <= j < i :: NoFit(view[j], n)
    {
      hide Shape, PagesAre, Page.Valid, NoFit, BestFit;
      ShapeParts();
      ViewAt();
      page, i, freeBlock := pages, 0, null;
      while page != null
        invariant i <= |list| && page == PageAt(list, i)
        invariant freeBlock == null
        invariant forall j | 0 <= j < i :: NoFit(view[j], n)
        decreases |list| - i
      {
        PageAtPlace(i, page);
        FreeFits(i, n);
        freeBlock := page.FindFreeBlock(n);
        if freeBlock != null {
          assert Smallest(page.free, n, freeBlock.addr);
          return;
        }
        page := page.next;
        i := i + 1;
      }
    }

    /** The search for the address of a new page, with sums of 64 bits; with no page yet, the base. */
    method FindNextAddress(size: nat) returns (addr: Option<nat>)
      requires Shape()
      ensures addr == Search64(Cfg(), view, size)
    {
      hide *;
      ShapeParts();
      LinkedAt();
      ViewAt();
      CfgIs();
      SearchStarts(Cfg(), view, size);
      PlaceIs(0);
      if pages == null {
        return Some(baseAddress);
      }
      var current, endOfLastPage: nat := pages, baseAddress;
      ghost var i := 0;
      while current != null
        invariant i <= |list| == |view| && current == PageAt(list, i)
        invariant Search64(Cfg(), view, size) == SearchFrom64(Cfg(), view, i, endOfLastPage, size)
        decreases |list| - i
      {
        PlaceIs(i);
        SearchStep(Cfg(), view, i, endOfLastPage, size);
        var startOfCurrentPage := current.addr;
        if (endOfLastPage + size) % U64 <= startOfCurrentPage {
          return Some(endOfLastPage);
        }
        endOfLastPage := (current.addr + current.size) % U64;
        current := current.next;
        i := i + 1;
      }
      PlaceIs(i);
      SearchStep(Cfg(), view, i, endOfLastPage, size);
      if (endOfLastPage + size) % U64 <= (baseAddress + capacity) % U64 {
        return Some(endOfLastPage);
      }
      return None;
    }

    lemma PlaceIs(i: nat)
      ensures PageAt(list, i) == if i < |list| then list[i] else null
      ensures U64 == 0x1_0000_0000_0000_0000
    {
    }

    // ---- the operations ----

    /** Creates a page and takes its first n bytes. */
    method FillNewPage(addr: nat, size: nat, n: nat) returns (ghost k: nat)
      requires Shape() && 0 < n <= size && n % blockAlign == 0 && size % blockAlign == 0
      modifies this, Repr
      ensures Shape() && fresh(Repr - old(Repr)) && allocatedBytes == old(allocatedBytes)
      ensures NewAt(old(view), addr, size, n, view, k)
    {
      hide Shape, PagesAre, NoFit, BestFit, Page.Valid, Page.Repr;
      var newPage;
      newPage, k := CreatePage(addr, size);
      PageAtPlace(k, newPage);
      FreeFits(k, n);
      EmptyPageGap(view[k], n, addr);
      var freeBlock := newPage.FindFreeBlock(n);
      assert Smallest(newPage.free, n, freeBlock.addr);
      EmptyPageGap(view[k], n, freeBlock.addr);
      AllocateIn(newPage, freeBlock, n, k);
      NewFilled(old(view), k, addr, size, n);
    }

    /** Allocates from a new page when no page has a fitting free block. */
    method AllocateNew(n: nat) returns (addr: Option<nat>, ghost k: nat)
      requires Shape() && 0 < n && n % blockAlign == 0 && AlignSize(n, pageAlign) == AlignUp(n, pageAlign)
      modifies this, Repr
      ensures Shape() && fresh(Repr - old(Repr)) && allocatedBytes == old(allocatedBytes)
      ensures addr == Search64(Cfg(), old(view), AlignUp(n, pageAlign))
      ensures addr.None? ==> view == old(view)
      ensures addr.Some? ==> NewAt(old(view), addr.value, AlignUp(n, pageAlign), n, view, k)
    {
      hide Shape, PagesAre, Page.Valid, NewAt, Search64, Page.Repr, AlignSize;
      ShapeParts();
      k := 0;
      var pageSize := AlignSize(n, pageAlign);
      MultipleTrans(pageSize, pageAlign, blockAlign);
      addr := FindNextAddress(pageSize);
      if addr.Some? {
        k := FillNewPage(addr.value, pageSize, n);
      }
    }

    lemma AfterAllocate(before: AllocatorSpec.Pages, size: nat, addr: nat, bytes: nat)
      requires Cfg().Ok() && StateOk(Cfg(), before) && bytes == Total(before)
      requires Allocates(Cfg(), before, size, addr, view) && Bounded(view)
      ensures StateOk(Cfg(), view) && Total(view) == bytes + AlignUp(size, blockAlign)
    {
      hide PagesOk, Above, Bounded, Total, Allocates;
      AllocateKeeps(Cfg(), before, size, addr, view);
      AllocateAbove(Cfg(), before, size, addr, view);
      AllocateTotal(Cfg(), before, size, addr, view);
    }

    /** The outcome of an allocation on a new page, sound or not. */
    lemma AfterNew(before: AllocatorSpec.Pages, size: nat, n: nat, addr: Option<nat>, k: nat)
      requires Cfg().Ok() && StateOk(Cfg(), before) && 0 < size <= U64 - pageAlign && n == AlignUp(size, blockAlign)
      requires (forall j | 0 <= j < |before| :: NoFit(before[j], n)) && addr == Search64(Cfg(), before, AlignUp(n, pageAlign))
      requires addr.None? ==> view == before
      requires addr.Some? ==> NewAt(before, addr.value, AlignUp(n, pageAlign), n, view, k)
      ensures addr.None? ==> Sound(Cfg(), before, size) && Exhausted(Cfg(), before, size)
      ensures addr.Some? && Sound(Cfg(), before, size) ==> Allocates(Cfg(), before, size, addr.value, view) && Bounded(view)
      ensures addr.Some? && !Sound(Cfg(), before, size) ==> Misplaced(Cfg(), before, size, addr.value, view) && !Bounded(view)
    {
      hide NoFit, AlignUp, Search, Search64, NewAt, TakenFrom, TakenNew, NoRoom, StateOk, Bounded;
      var s := AlignUp(n, pageAlign);
      Roundings(Cfg(), size);
      OpenState(Cfg(), before);
      if addr.None? {
        NothingFound(Cfg(), before, s);
      } else if Sound(Cfg(), before, size) {
        SoundNew(Cfg(), before, n, s, addr.value, view, k);
        NewAtBounded(before, addr.value, s, n, view, k);
      } else {
        UnsoundNew(Cfg(), before, s, addr.value);
        NewAtBounded(before, addr.value, s, n, view, k);
      }
    }

    lemma OpenState(c: Config, ps: AllocatorSpec.Pages)
      requires StateOk(c, ps)
      ensures PagesOk(c, ps) && Above(c, ps) && Bounded(ps)
    {
    }

    lemma CfgIs()
      ensures Cfg() == Config(baseAddress, capacity, pageAlign, blockAlign)
    {
    }

    /** Best fit in the first page that has a fitting free block, else a new page in the lowest gap. The state stays right
      exactly when the sums of the request are; otherwise a page is placed whose end passes 2^64. */
    method Allocate(size: nat) returns (addr: Option<nat>)
      requires Valid() && size <= U64 - pageAlign
      modifies this, Repr
      ensures Shape() && fresh(Repr - old(Repr))
      ensures Valid() <==> Sound(Cfg(), old(view), size)
      ensures addr.None? ==> view == old(view) && (size == 0 || Exhausted(Cfg(), view, size))
      ensures addr.Some? && Sound(Cfg(), old(view), size) ==> Allocates(Cfg(), old(view), size, addr.value, view)
      ensures addr.Some? && !Sound(Cfg(), old(view), size) ==> Misplaced(Cfg(), old(view), size, addr.value, view)
    {
      hide *;
      OpenValid();
      if size == 0 {
        NothingAsked(Cfg(), view);
        return None;
      }
      CfgIs();
      Roundings(Cfg(), size);
      var alignedSize := AlignSize(size, blockAlign);
      var currPage, freeBlock; ghost var i, k;
      currPage, freeBlock, i := FindPage(alignedSize);
      if freeBlock == null {
        addr, k := AllocateNew(alignedSize);
        AfterNew(old(view), size, alignedSize, addr, k);
        if addr.None? {
          CloseValid();
          return;
        }
      } else {
        AllocateIn(currPage, freeBlock, alignedSize, i);
        addr := Some(freeBlock.addr);
        AfterOld(old(view), size, alignedSize, addr.value, i);
      }
      if Sound(Cfg(), old(view), size) {
        AfterAllocate(old(view), size, addr.value, allocatedBytes);
      }
      allocatedBytes := allocatedBytes + alignedSize;
      ValidIs();
    }

    lemma OpenValid()
      requires Valid()
      ensures Shape() && StateOk(Cfg(), view) && allocatedBytes == Total(view) && Cfg().Ok() && this in Repr
      ensures 0 < blockAlign && 0 < pageAlign && pageAlign % blockAlign == 0
    {
      hide StateOk, Total, Linked;
    }

    lemma CloseValid()
      requires Shape() && StateOk(Cfg(), view) && allocatedBytes == Total(view)
      ensures Valid()
    {
      hide Shape, StateOk, Total;
    }

    lemma ValidIs()
      requires Shape()
      ensures Valid() <==> StateOk(Cfg(), view) && allocatedBytes == Total(view)
      ensures StateOk(Cfg(), view) ==> Bounded(view)
    {
      hide Shape, PagesOk, Above, Bounded, Total;
    }

    lemma NothingAsked(c: Config, ps: AllocatorSpec.Pages)
      requires c.Ok()
      ensures Sound(c, ps, 0)
    {
      hide AlignUp, NoFit, Search, Search64;
    }

    /** The outcome of an allocation on page i. */
    lemma AfterOld(before: AllocatorSpec.Pages, size: nat, n: nat, addr: nat, i: nat)
      requires Cfg().Ok() && StateOk(Cfg(), before) && 0 < size && n == AlignUp(size, blockAlign) && i < |before|
      requires BestFit(before[i], n, addr) && view == before[i := Use(before[i], addr, n)]
      requires forall j | 0 <= j < i :: NoFit(before[j], n)
      ensures Sound(Cfg(), before, size) && Allocates(Cfg(), before, size, addr, view) && Bounded(view)
    {
      hide NoFit, AlignUp, Search, Search64, TakenNew, PagesOk;
      assert TakenFrom(before, n, addr, view, i);
      TakenFromBounded(before, n, addr, view, i);
      FitIs(before[i], n, addr);
    }

    lemma FitIs(p: PageV, n: nat, a: nat)
      requires BestFit(p, n, a)
      ensures !NoFit(p, n)
    {
    }

    /** The search of release: the page that uses the address. */
    method FindUser(a: nat) returns (page: Page?, usedBlock: Block?, ghost i: nat)
      requires Shape()
      ensures (page == null <==> usedBlock == null) && (page == null ==> forall j | 0 <= j < |view| :: a !in view[j].used)
      ensures page != null ==> i < |list| == |view| && page == list[i] && usedBlock in page.U && usedBlock.addr == a
      ensures page != null ==> a in view[i].used && view[i].used[a] == usedBlock.size
    {
      hide Shape, PagesAre, Page.Valid;
      ShapeParts();
      ViewAt();
      page, i, usedBlock := pages, 0, null;
      while page != null
        invariant i <= |list| && page == PageAt(list, i)
        invariant usedBlock == null
        invariant forall j | 0 <= j < i :: a !in view[j].used
        decreases |list| - i
      {
        PageAtPlace(i, page);
        usedBlock := page.FindUsedBlock(a);
        if usedBlock != null {
          return;
        }
        page := page.next;
        i := i + 1;
      }
    }

    /** Deletes page i when the release has emptied it. */
    method DropEmpty(page: Page, a: nat, ghost i: nat, ghost before: AllocatorSpec.Pages)
      requires Shape() && PagesOk(Cfg(), before) && i < |list| && |before| == |list| && page == list[i]
      requires a in before[i].used && view == before[i := before[i].(used := before[i].used - {a})]
      modifies this, Repr
      ensures Shape() && Repr == old(Repr) && allocatedBytes == old(allocatedBytes) && view == Without(before, {a})
    {
      hide Shape, PagesOk, Page.Valid, Page.Repr, Without;
      PageAtPlace(i, page);
      ReleaseAt(Cfg(), before, i, a);
      var empty := page.Empty();
      if empty {
        DeletePage(page, i);
        assert view == before[..i] + ([] + before[i + 1..]);
      } else {
        assert view == before[..i] + (Drop(before[i], {a}) + before[i + 1..]);
      }
    }

    /** Releases the block at an address; an address that is not in use is reported and changes nothing. */
    method Release(addr: nat) returns (ok: bool)
      requires Valid()
      modifies this, Repr
      ensures Valid() && fresh(Repr - old(Repr))
      ensures ok <==> addr in Frames(old(view))
      ensures view == Without(old(view), {addr})
    {
      hide Shape, PagesOk, Above, Bounded, Without, Frames, Page.Valid, Page.Repr, Total;
      var currPage, usedBlock; ghost var i;
      currPage, usedBlock, i := FindUser(addr);
      FramesIn(view, addr);
      if usedBlock == null {
        NothingReleased(addr);
        return false;
      }
      var size := usedBlock.size;
      ReleaseTotal(Cfg(), view, i, addr);
      ReleaseKeeps(Cfg(), view, {addr});
      ReleaseAbove(Cfg(), view, {addr});
      ReleaseBounded(Cfg(), view, {addr});
      ReleaseIn(currPage, usedBlock, i);
      DropEmpty(currPage, addr, i, old(view));
      allocatedBytes := allocatedBytes - size;
      return true;
    }

    lemma NothingReleased(a: nat)
      requires PagesOk(Cfg(), view) && a !in Frames(view)
      ensures Without(view, {a}) == view
    {
      assert forall i | 0 <= i < |view| :: PageOk(Cfg(), view[i]);
      WithoutNone(view, {a});
    }

    /** Whether a page overlaps or merely touches [start, start + size), whose end may wrap. */
    method HasPageOverlap(start: nat, size: nat) returns (r: bool)
      requires Shape()
      ensures r <==> Overlap64(view, start, size)
    {
      hide *;
      ShapeParts();
      LinkedAt();
      ViewAt();
      OverlapIs(view, start, size);
      PlaceIs(0);
      var current := pages;
      ghost var i := 0;
      while current != null
        invariant i <= |list| == |view| && current == PageAt(list, i)
        invariant forall j | 0 <= j < i :: !Meets64(view[j], start, size)
        decreases |list| - i
      {
        PlaceIs(i);
        MeetsIs(view[i], start, size);
        var pageStart := current.addr;
        var pageEnd := (pageStart + current.size) % U64;
        var end := (start + size) % U64;
        if start <= pageEnd && end >= pageStart {
          return true;
        }
        current := current.next;
        i := i + 1;
      }
      PlaceIs(i);
      return false;
    }

    /** The outcome of a granted reservation. */
    lemma AfterReserve(before: AllocatorSpec.Pages, addr: nat, size: nat, k: nat, bytes: nat)
      requires Cfg().Ok() && StateOk(Cfg(), before) && bytes == Total(before) && addr < U64 && 0 < size <= U64 - pageAlign
      requires var s := AlignUp(size, pageAlign); Grants64(Cfg(), before, addr, s) && NewAt(before, addr, s, s, view, k)
      ensures addr + AlignUp(size, pageAlign) < U64 ==>
        Reserves(Cfg(), before, addr, size, view) && Total(view) == bytes + AlignUp(size, pageAlign)
      ensures StateOk(Cfg(), view) <==> baseAddress <= addr && addr + AlignUp(size, pageAlign) < U64
    {
      hide PagesOk, Above, Bounded, Total, Reserves, NewAt, Grants64, AlignUp, Apart;
      var s := AlignUp(size, pageAlign);
      Roundings(Cfg(), size);
      NewAtBounded(before, addr, s, s, view, k);
      if addr + s < U64 {
        GrantsIff(Cfg(), before, addr, s);
        ReservedIs(Cfg(), before, addr, size, s, view, k);
        ReserveKeeps(Cfg(), before, addr, size, view);
        NewAtAbove(Cfg(), before, addr, s, view, k);
      }
    }

    lemma NewAtAbove(c: Config, before: AllocatorSpec.Pages, addr: nat, s: nat, after: AllocatorSpec.Pages, k: nat)
      requires NewAt(before, addr, s, s, after, k)
      ensures Above(c, after) ==> c.base <= addr
    {
      assert after[k].addr == addr;
    }

    lemma ReservedIs(c: Config, before: AllocatorSpec.Pages, addr: nat, size: nat, s: nat, after: AllocatorSpec.Pages, k: nat)
      requires c.Ok() && PagesOk(c, before) && 0 < size && s == AlignUp(size, c.pageAlign)
      requires Apart(before, addr, s) && addr + s <= c.Limit() && NewAt(before, addr, s, s, after, k)
      ensures Reserves(c, before, addr, size, after)
    {
      hide PagesOk, Apart, AlignUp, PlacedAt, InsertAt;
      PlaceOf(c, before, addr, s, k);
    }

    /** Reserves a page at a given address. The state stays right exactly when the page starts at or above the base and
      ends below 2^64. */
    method Reserve(addr: nat, size: nat) returns (ok: bool)
      requires Valid() && addr < U64 && size <= U64 - pageAlign
      modifies this, Repr
      ensures Shape() && fresh(Repr - old(Repr))
      ensures ok <==> 0 < size && Grants64(Cfg(), old(view), addr, AlignUp(size, pageAlign))
      ensures !ok ==> Valid() && view == old(view)
      ensures ok ==> exists k: nat :: NewAt(old(view), addr, AlignUp(size, pageAlign), AlignUp(size, pageAlign), view, k)
      ensures ok ==> (Valid() <==> baseAddress <= addr && addr + AlignUp(size, pageAlign) < U64)
      ensures ok && addr + AlignUp(size, pageAlign) < U64 ==> Reserves(Cfg(), old(view), addr, size, view)
    {
      hide *;
      OpenValid();
      CfgIs();
      if size == 0 {
        return false;
      }
      Roundings(Cfg(), size);
      var alignedSize := AlignSize(size, pageAlign);
      MultipleTrans(alignedSize, pageAlign, blockAlign);
      GrantsIs(view, addr, alignedSize);
      if (addr + alignedSize) % U64 > (baseAddress + capacity) % U64 {
        return false;
      }
      var overlap := HasPageOverlap(addr, alignedSize);
      if overlap {
        return false;
      }
      ghost var k;
      k := FillNewPage(addr, alignedSize, alignedSize);
      AfterReserve(old(view), addr, size, k, allocatedBytes);
      allocatedBytes := allocatedBytes + alignedSize;
      ValidIs();
      return true;
    }

    lemma GrantsIs(ps: AllocatorSpec.Pages, a: nat, s: nat)
      ensures Grants64(Cfg(), ps, a, s) <==> (a + s) % U64 <= (baseAddress + capacity) % U64 && !Overlap64(ps, a, s)
    {
    }

    /** The bytes not in use. It does not underflow, as long as no page passes the limit. */
    method Free() returns (n: int)
      requires Valid()
      ensures Within(Cfg(), view) ==> 0 <= n && n + Total(view) == capacity
    {
      if Within(Cfg(), view) {
        TotalWithin(Cfg(), view);
      }
      n := capacity - allocatedBytes;
    }
  }
}
