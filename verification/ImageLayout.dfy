/** The pages of a kernel image, and those of its heap behind it. */
module ImageLayout {
  import opened Base
  import opened Bits
  import opened Memory
  import opened Translation
  import opened PageTables
  import opened Mappings
  import opened Copies

  function PageDown(a: nat): nat {
    a / PAGE_SIZE * PAGE_SIZE
  }

  function RoundUp(a: nat): nat {
    (a + PAGE_SIZE - 1) / PAGE_SIZE * PAGE_SIZE
  }

  /** The code lies at the start of the image, which ends at least a page below 4 GiB. */
  predicate ImageOk(minVma: nat, maxVma: nat, binSize: nat) {
    minVma + binSize <= maxVma && maxVma + PAGE_SIZE <= U32
  }

  /** The page of the last byte of code, in 32 bits. */
  function LastCodePage(minVma: nat, binSize: nat): (a: nat)
    ensures a < U32
  {
    PageDown((minVma + binSize + U32 - 1) % U32)
  }

  /** Data starts in the page in which the code ends. */
  predicate SharedBoundary(minVma: nat, maxVma: nat, binSize: nat) {
    var codeEnd := (minVma + binSize) % U32;
    maxVma > codeEnd && LastCodePage(minVma, binSize) == PageDown(codeEnd)
  }

  /** The number of pages mapped for an image. */
  function ImagePages(minVma: nat, maxVma: nat, binSize: nat): (n: nat)
    requires ImageOk(minVma, maxVma, binSize)
  {
    if SharedBoundary(minVma, maxVma, binSize) then Started(maxVma) - minVma / PAGE_SIZE else Started(maxVma - minVma)
  }

  /** How many of these pages, from the first on, are for code. */
  function CodePages(minVma: nat, maxVma: nat, binSize: nat): nat {
    Started((if SharedBoundary(minVma, maxVma, binSize) then minVma % PAGE_SIZE else 0) + binSize)
  }

  /** Code and data share a page exactly when the code ends inside a page and data follows. */
  lemma SharedIff(minVma: nat, maxVma: nat, binSize: nat)
    requires ImageOk(minVma, maxVma, binSize)
    ensures SharedBoundary(minVma, maxVma, binSize) <==> minVma + binSize < maxVma && (minVma + binSize) % PAGE_SIZE != 0
  {
    LastCodePageIs(minVma, maxVma, binSize);
    hide LastCodePage;
    var e := minVma + binSize;
    if 0 < e {
      SamePageBefore(e);
    }
  }

  lemma SamePageBefore(e: nat)
    requires 0 < e
    ensures PageDown(e - 1) == PageDown(e) <==> e % PAGE_SIZE != 0
  {
  }

  /** The pages that are mapped as code, up to the page of the last byte of code when it is shared. */
  lemma CodePagesAre(minVma: nat, maxVma: nat, binSize: nat)
    requires ImageOk(minVma, maxVma, binSize)
    ensures var c, first, last := CodePages(minVma, maxVma, binSize), minVma / PAGE_SIZE, LastCodePage(minVma, binSize);
      && (SharedBoundary(minVma, maxVma, binSize) ==> last / PAGE_SIZE - first + 1 == c)
      && (!SharedBoundary(minVma, maxVma, binSize) ==> Started(RoundUp(binSize)) == c)
      && c <= ImagePages(minVma, maxVma, binSize) <= PAGES
  {
    if SharedBoundary(minVma, maxVma, binSize) {
      SharedParts(minVma, maxVma, binSize);
      LastOfCode(minVma, maxVma, binSize);
    } else {
      PlainParts(minVma, maxVma, binSize);
      RoundedStarted(binSize);
    }
    ImageCovered(minVma, maxVma, binSize);
  }

  lemma RoundedStarted(n: nat)
    ensures Started(RoundUp(n)) == Started(n)
  {
  }

  lemma LastOfCode(minVma: nat, maxVma: nat, binSize: nat)
    requires ImageOk(minVma, maxVma, binSize) && SharedBoundary(minVma, maxVma, binSize)
    ensures LastCodePage(minVma, binSize) / PAGE_SIZE - minVma / PAGE_SIZE + 1 == Started(minVma % PAGE_SIZE + binSize)
  {
    SharedIff(minVma, maxVma, binSize);
    LastCodePageIs(minVma, maxVma, binSize);
    hide LastCodePage, SharedBoundary;
    StartedSplit(minVma, binSize);
  }

  lemma LastCodePageIs(minVma: nat, maxVma: nat, binSize: nat)
    requires ImageOk(minVma, maxVma, binSize)
    ensures 0 < minVma + binSize ==> LastCodePage(minVma, binSize) == PageDown(minVma + binSize - 1)
    ensures minVma + binSize == 0 ==> LastCodePage(minVma, binSize) == U32 - PAGE_SIZE
    ensures (minVma + binSize) % U32 == minVma + binSize
  {
  }

  /** The pages of the three parts of an image with a shared page. */
  lemma SharedParts(minVma: nat, maxVma: nat, binSize: nat)
    requires ImageOk(minVma, maxVma, binSize) && SharedBoundary(minVma, maxVma, binSize)
    ensures var last, first, n := LastCodePage(minVma, binSize), minVma / PAGE_SIZE, ImagePages(minVma, maxVma, binSize);
      && first <= last / PAGE_SIZE && last + PAGE_SIZE < U32 && (last + PAGE_SIZE) % U32 == last + PAGE_SIZE
      && (if last > minVma then Started(last - minVma) == last / PAGE_SIZE - first && last - minVma <= U32 - PAGE_SIZE
          else last / PAGE_SIZE == first)
      && (if maxVma > last + PAGE_SIZE
          then last / PAGE_SIZE - first + 1 + Started(maxVma - (last + PAGE_SIZE)) == n && maxVma - (last + PAGE_SIZE) <= U32 - PAGE_SIZE
          else last / PAGE_SIZE - first + 1 == n)
      && PageNo(first, 0) == first && PageNo(first, last / PAGE_SIZE - first) == last / PAGE_SIZE
      && PageNo(first, last / PAGE_SIZE - first + 1) == (last + PAGE_SIZE) / PAGE_SIZE
  {
    LastCodePageIs(minVma, maxVma, binSize);
    LastPages(minVma, maxVma, binSize);
    hide LastCodePage, PageNo;
  }

  lemma LastPages(minVma: nat, maxVma: nat, binSize: nat)
    requires ImageOk(minVma, maxVma, binSize) && SharedBoundary(minVma, maxVma, binSize)
    ensures var last, first := LastCodePage(minVma, binSize), minVma / PAGE_SIZE;
      && last % PAGE_SIZE == 0 && last + PAGE_SIZE < U32 && first <= last / PAGE_SIZE < PAGES - 1 && last < maxVma
      && (last + PAGE_SIZE) / PAGE_SIZE == last / PAGE_SIZE + 1 && PageNo(first, 0) == first
      && PageNo(first, last / PAGE_SIZE - first) == last / PAGE_SIZE && PageNo(first, last / PAGE_SIZE - first + 1) == last / PAGE_SIZE + 1
  {
    LastCodePageIs(minVma, maxVma, binSize);
  }

  lemma PlainCode(minVma: nat, maxVma: nat, binSize: nat)
    requires ImageOk(minVma, maxVma, binSize)
    ensures var code, first := RoundUp(binSize), minVma / PAGE_SIZE;
      code % PAGE_SIZE == 0 && binSize <= code < binSize + PAGE_SIZE && PageNo(first, 0) == first
      && Started(code) == code / PAGE_SIZE && first + Started(code) < PAGES && PageNo(first, Started(code)) == first + Started(code)
      && (minVma + code) / PAGE_SIZE == first + Started(code)
  {
  }

  /** The pages of the two parts of an image without one. */
  lemma PlainParts(minVma: nat, maxVma: nat, binSize: nat)
    requires ImageOk(minVma, maxVma, binSize) && !SharedBoundary(minVma, maxVma, binSize)
    ensures var code, first, n := RoundUp(binSize), minVma / PAGE_SIZE, ImagePages(minVma, maxVma, binSize);
      && code <= U32 - PAGE_SIZE && minVma + code < U32 && code % U32 == code && (minVma + code) % U32 == minVma + code
      && (minVma + binSize) % U32 == minVma + binSize && PageNo(first, 0) == first
      && PageNo(first, Started(code)) == (minVma + code) / PAGE_SIZE
      && (if maxVma > minVma + binSize && maxVma > minVma + code
          then Started(code) + Started(maxVma - (minVma + code)) == n && maxVma - (minVma + code) <= U32 - PAGE_SIZE
          else Started(code) == n)
  {
    PlainCode(minVma, maxVma, binSize);
    hide RoundUp, PageNo;
    LastCodePageIs(minVma, maxVma, binSize);
  }

  /** The pages mapped never reach past the image, and cover it to its last byte exactly when the boundary is shared or
    the image does not straddle one page more than its size needs: in particular for every page-aligned start. */
  lemma ImageCovered(minVma: nat, maxVma: nat, binSize: nat)
    requires ImageOk(minVma, maxVma, binSize)
    ensures var first := minVma / PAGE_SIZE;
      && first + ImagePages(minVma, maxVma, binSize) <= Started(maxVma)
      && (minVma < maxVma ==>
        (first + ImagePages(minVma, maxVma, binSize) == Started(maxVma) <==>
         SharedBoundary(minVma, maxVma, binSize) || minVma % PAGE_SIZE + (maxVma - minVma - 1) % PAGE_SIZE < PAGE_SIZE))
      && (minVma % PAGE_SIZE == 0 ==> first + ImagePages(minVma, maxVma, binSize) == Started(maxVma))
  {
    hide SharedBoundary, Started;
    StartedSplit(minVma, maxVma - minVma);
    StraddleOne(minVma % PAGE_SIZE, maxVma - minVma);
  }

  /** Two bytes of code around a page boundary: one page is mapped, and the second byte is not on it. */
  lemma UncoveredImage()
    ensures ImageOk(4095, 4097, 2) && ImagePages(4095, 4097, 2) == 1 && Started(4097) == 2
  {
  }

  /** The first address of the heap: the end of the image, rounded up to a page. */
  lemma HeapBase(maxVma: nat)
    requires maxVma + PAGE_SIZE <= U32
    ensures RoundUp(maxVma) < U32 && RoundUp(maxVma) % PAGE_SIZE == 0 && RoundUp(maxVma) / PAGE_SIZE == Started(maxVma)
  {
  }

  /** Heap pages that were mapped before leave the pages of the image unmapped, as long as the heap does not reach around
    the end of the address space. */
  lemma HeapLeavesImage(l: Layout, s: Space, s': Space, r: nat, minVma: nat, maxVma: nat, binSize: nat, heap: seq<nat>)
    requires ImageOk(minVma, maxVma, binSize) && IsRoot(s, r) && IsFrame(r)
    requires NewPages(l, s, s', r, Started(maxVma), heap) && Started(maxVma) + |heap| <= PAGES
    requires Unmapped(s.mem, r, minVma / PAGE_SIZE, ImagePages(minVma, maxVma, binSize))
    ensures Unmapped(s'.mem, r, minVma / PAGE_SIZE, ImagePages(minVma, maxVma, binSize))
  {
    hide Entry, IsFrame, IsRoot, Grown, Counted, ImagePages, Place;
    ImageCovered(minVma, maxVma, binSize);
    var first, n := minVma / PAGE_SIZE, ImagePages(minVma, maxVma, binSize);
    forall p | 0 <= p < PAGES && Place(first, p) < n ensures Target(s'.mem, r, p) == None {
      assert WroteAt(s, s', r, Started(maxVma), heap, r, p);
      ImageBelow(first, n, Started(maxVma), |heap|, p);
    }
  }

  lemma ImageBelow(first: nat, n: nat, end: nat, heap: nat, p: nat)
    requires p < PAGES && first + n <= end && end + heap <= PAGES && Place(first, p) < n
    ensures heap <= Place(end, p)
  {
  }

  /** How many bytes of the code lie on the pages that are mapped for the image. */
  function HeldBytes(minVma: nat, maxVma: nat, binSize: nat): (n: nat)
    requires ImageOk(minVma, maxVma, binSize)
    ensures n <= binSize
  {
    var end := (minVma / PAGE_SIZE + ImagePages(minVma, maxVma, binSize)) * PAGE_SIZE;
    if end <= minVma then 0 else if end - minVma < binSize then end - minVma else binSize
  }

  /** All of the code lies on them exactly when the boundary is shared or the code straddles no more pages than the size of
    the image needs: in particular for every page-aligned start. */
  lemma CodeHeld(minVma: nat, maxVma: nat, binSize: nat)
    requires ImageOk(minVma, maxVma, binSize)
    ensures HeldBytes(minVma, maxVma, binSize) == binSize <==>
      binSize == 0 || SharedBoundary(minVma, maxVma, binSize) || Started(minVma % PAGE_SIZE + binSize) <= Started(maxVma - minVma)
    ensures minVma % PAGE_SIZE == 0 ==> HeldBytes(minVma, maxVma, binSize) == binSize
  {
    hide SharedBoundary, Started;
    var n := ImagePages(minVma, maxVma, binSize);
    EndOfPages(minVma, binSize, n);
    if SharedBoundary(minVma, maxVma, binSize) {
      MorePages(minVma + binSize, maxVma);
      StartedSplit(minVma, binSize);
    } else if minVma % PAGE_SIZE == 0 {
      MorePages(binSize, maxVma - minVma);
    }
  }

  lemma MorePages(a: nat, b: nat)
    requires a <= b
    ensures Started(a) <= Started(b)
  {
  }

  lemma EndOfPages(a: nat, b: nat, n: nat)
    ensures a + b <= (a / PAGE_SIZE + n) * PAGE_SIZE <==> Started(a % PAGE_SIZE + b) <= n
  {
    var c := a % PAGE_SIZE + b;
    assert a + b == a / PAGE_SIZE * PAGE_SIZE + c;
    AtMostPages(c, n);
  }

  lemma AtMostPages(c: nat, n: nat)
    ensures c <= n * PAGE_SIZE <==> Started(c) <= n
  {
  }

  /** The code that lies on the pages of the image lies on pages that its page table owns, also after the page table has grown. */
  lemma ImageOwned(l: Layout, s: Space, s1: Space, s2: Space, r: nat, minVma: nat, maxVma: nat, binSize: nat, frames: seq<nat>)
    requires ImageOk(minVma, maxVma, binSize) && IsRoot(s, r) && IsRoot(s1, r) && IsFrame(r)
    requires NewPages(l, s, s1, r, minVma / PAGE_SIZE, frames) && |frames| == ImagePages(minVma, maxVma, binSize)
    requires Extends(s1, s2, r)
    ensures OwnPages(l, s2.mem, r, minVma, HeldBytes(minVma, maxVma, binSize))
  {
    hide Entry, IsFrame, IsRoot, Grown, Counted, ImagePages, Place, HeldBytes;
    var first := minVma / PAGE_SIZE;
    forall i | 0 <= i < HeldBytes(minVma, maxVma, binSize)
      ensures var t := Target(s2.mem, r, After(minVma, i) / PAGE_SIZE); t.Some? && Counted(l, t.value)
    {
      var p := After(minVma, i) / PAGE_SIZE;
      ImageByte(minVma, maxVma, binSize, i);
      InStretch(first, |frames|, p);
      assert WroteAt(s, s1, r, first, frames, r, p);
      assert ExtendsAt(s1, s2, r, r, p);
    }
  }

  lemma ImageByte(minVma: nat, maxVma: nat, binSize: nat, i: nat)
    requires ImageOk(minVma, maxVma, binSize) && i < HeldBytes(minVma, maxVma, binSize)
    ensures var p, first := After(minVma, i) / PAGE_SIZE, minVma / PAGE_SIZE;
      first <= p < first + ImagePages(minVma, maxVma, binSize) && p < PAGES
  {
    hide ImagePages;
  }

  lemma InStretch(first: nat, n: nat, p: nat)
    requires first <= p < first + n && p < PAGES
    ensures Place(first, p) < n
  {
  }

  // ---- permissions ----

  /** Code pages can be read and executed, and written only when code and data share a page; data pages can be read and
    written, and not executed. All are user pages. */
  ghost predicate ImagePermitted(m: Mem, r: nat, minVma: nat, maxVma: nat, binSize: nat)
    requires IsFrame(r) && ImageOk(minVma, maxVma, binSize)
  {
    CodePagesAre(minVma, maxVma, binSize);
    var first, c := minVma / PAGE_SIZE, CodePages(minVma, maxVma, binSize);
    && Permitted(m, r, first, c, SharedBoundary(minVma, maxVma, binSize), true)
    && Permitted(m, r, PageNo(first, c), ImagePages(minVma, maxVma, binSize) - c, true, false)
  }

  lemma ImagePermittedIs(m: Mem, r: nat, minVma: nat, maxVma: nat, binSize: nat, c: nat, n: nat, w: bool)
    requires IsFrame(r) && ImageOk(minVma, maxVma, binSize) && w == SharedBoundary(minVma, maxVma, binSize)
    requires c == CodePages(minVma, maxVma, binSize) && c + n == ImagePages(minVma, maxVma, binSize)
    requires Permitted(m, r, minVma / PAGE_SIZE, c, w, true) && Permitted(m, r, PageNo(minVma / PAGE_SIZE, c), n, true, false)
    ensures ImagePermitted(m, r, minVma, maxVma, binSize)
  {
    hide Permitted, SharedBoundary, ImagePages, CodePages, IsFrame, PageNo;
  }

  lemma ImagePermittedKept(s: Space, s': Space, r: nat, minVma: nat, maxVma: nat, binSize: nat)
    requires IsRoot(s, r) && IsFrame(r) && Extends(s, s', r) && ImageOk(minVma, maxVma, binSize)
    requires ImagePermitted(s.mem, r, minVma, maxVma, binSize)
    ensures ImagePermitted(s'.mem, r, minVma, maxVma, binSize)
  {
    hide Permitted, SharedBoundary, ImagePages, CodePages, IsFrame, IsRoot, Extends, PageNo;
    CodePagesAre(minVma, maxVma, binSize);
    var first, c := minVma / PAGE_SIZE, CodePages(minVma, maxVma, binSize);
    PermittedKept(s, s', r, r, first, c, SharedBoundary(minVma, maxVma, binSize), true);
    PermittedKept(s, s', r, r, PageNo(first, c), ImagePages(minVma, maxVma, binSize) - c, true, false);
  }

  /** Every byte of code lies on a code page exactly when a page is shared or the code straddles no more pages than its size
    needs: in particular for every page-aligned start. */
  lemma CodeOnCodePages(minVma: nat, maxVma: nat, binSize: nat)
    requires ImageOk(minVma, maxVma, binSize)
    ensures minVma + binSize <= (minVma / PAGE_SIZE + CodePages(minVma, maxVma, binSize)) * PAGE_SIZE <==>
      SharedBoundary(minVma, maxVma, binSize) || Started(minVma % PAGE_SIZE + binSize) <= Started(binSize)
    ensures minVma % PAGE_SIZE == 0 ==>
      minVma + binSize <= (minVma / PAGE_SIZE + CodePages(minVma, maxVma, binSize)) * PAGE_SIZE
  {
    hide SharedBoundary, Started;
    EndOfPages(minVma, binSize, CodePages(minVma, maxVma, binSize));
  }

  /** A byte on a code page can be executed. */
  lemma CodeByte(m: Mem, r: nat, minVma: nat, maxVma: nat, binSize: nat, a: nat)
    requires IsFrame(r) && ImageOk(minVma, maxVma, binSize) && ImagePermitted(m, r, minVma, maxVma, binSize)
    requires minVma <= a < (minVma / PAGE_SIZE + CodePages(minVma, maxVma, binSize)) * PAGE_SIZE && a < maxVma
    ensures a / PAGE_SIZE < PAGES && PermittedAt(m, r, a / PAGE_SIZE, SharedBoundary(minVma, maxVma, binSize), true)
  {
    hide PermittedAt, SharedBoundary, ImagePages, CodePages, IsFrame;
    var first := minVma / PAGE_SIZE;
    PageInside(minVma, a, CodePages(minVma, maxVma, binSize));
    assert PermittedAt(m, r, PageNo(first, a / PAGE_SIZE - first), SharedBoundary(minVma, maxVma, binSize), true);
  }

  /** A byte of the image behind the code pages can be written, and not executed. */
  lemma DataByte(m: Mem, r: nat, minVma: nat, maxVma: nat, binSize: nat, a: nat)
    requires IsFrame(r) && ImageOk(minVma, maxVma, binSize) && ImagePermitted(m, r, minVma, maxVma, binSize) && minVma <= a < maxVma
    requires (minVma / PAGE_SIZE + CodePages(minVma, maxVma, binSize)) * PAGE_SIZE <= a
    requires a < (minVma / PAGE_SIZE + ImagePages(minVma, maxVma, binSize)) * PAGE_SIZE
    ensures a / PAGE_SIZE < PAGES && PermittedAt(m, r, a / PAGE_SIZE, true, false)
  {
    hide PermittedAt, SharedBoundary, ImagePages, CodePages, IsFrame;
    CodePagesAre(minVma, maxVma, binSize);
    var first, c := minVma / PAGE_SIZE, CodePages(minVma, maxVma, binSize);
    PageInside(minVma, a, ImagePages(minVma, maxVma, binSize));
    PageTwice(first, c, a / PAGE_SIZE - first - c);
    assert PermittedAt(m, r, PageNo(PageNo(first, c), a / PAGE_SIZE - first - c), true, false);
  }

  lemma PageInside(minVma: nat, a: nat, n: nat)
    requires minVma <= a < (minVma / PAGE_SIZE + n) * PAGE_SIZE && a < U32
    ensures minVma / PAGE_SIZE <= a / PAGE_SIZE < minVma / PAGE_SIZE + n && a / PAGE_SIZE < PAGES
    ensures PageNo(minVma / PAGE_SIZE, a / PAGE_SIZE - minVma / PAGE_SIZE) == a / PAGE_SIZE
  {
  }
}
