/** What the device holds after page tables and data were uploaded. */
module Uploads {
  import opened Base
  import opened Bits
  import opened Memory
  import opened Translation
  import opened PageTables
  import opened Mappings
  import opened Scratchpad
  import opened Dumps
  import opened Hardware
  import opened Copies

  /** d with the pages of a dump laid over it, as far as they are done. */
  ghost function Overlay(d: Mem, dump: Store, done: set<nat>): Mem {
    imap a: nat | a < U32 :: if a - a % PAGE_SIZE in done then ByteOf(dump, a) else At(d, a)
  }

  lemma OverlayNothing(d: Mem, dump: Store)
    ensures Overlay(d, dump, {}) == d
  {
  }

  lemma OverlayPage(d: Mem, dump: Store, done: set<nat>, k: nat)
    requires IsFrame(k) && k in dump && |dump[k]| == PAGE_SIZE && k !in done
    ensures Overlay(d, dump, done + {k}) == Written(Overlay(d, dump, done), k, dump[k])
  {
    var m, m' := Overlay(d, dump, done + {k}), Written(Overlay(d, dump, done), k, dump[k]);
    forall a: nat | a < U32 ensures m[a] == m'[a] {
      OverlayByte(d, dump, done, k, a);
    }
  }

  lemma OverlayByte(d: Mem, dump: Store, done: set<nat>, k: nat, a: nat)
    requires IsFrame(k) && k in dump && |dump[k]| == PAGE_SIZE && k !in done && a < U32
    ensures Overlay(d, dump, done + {k})[a] == Written(Overlay(d, dump, done), k, dump[k])[a]
  {
    if k <= a < k + PAGE_SIZE {
      PageOf(k, a - k);
      assert a - a % PAGE_SIZE == k && a % PAGE_SIZE == a - k;
    } else {
      NotInPage(k, a);
    }
  }

  lemma NotInPage(k: nat, a: nat)
    requires k % PAGE_SIZE == 0 && !(k <= a < k + PAGE_SIZE)
    ensures a - a % PAGE_SIZE != k
  {
  }

  lemma OverlaySame(d: Mem, dump: Store, n: nat)
    requires IsFrame(n) && n in dump
    ensures SamePages(Overlay(d, dump, dump.Keys), MemOf(dump), n)
  {
    forall a | n <= a < n + PAGE_SIZE && a < U32 ensures At(Overlay(d, dump, dump.Keys), a) == At(MemOf(dump), a) {
      PageOf(n, a - n);
    }
  }

  /** After its tables were uploaded, the device translates through a root as the host does. */
  lemma DeviceWalks(l: Layout, s: Space, r: nat, d: Mem, dump: Store, va: nat)
    requires Inv(l, s) && IsRoot(s, r) && IsFrame(r) && va < U32 && Dumped(s.mem, map[], dump, Tables(s.own, r))
    ensures Walk(Overlay(d, dump, dump.Keys), r, va) == Walk(s.mem, r, va)
  {
    hide Inv, IsFrame, Walk, MemOf, Bytes, SamePages, Tables, Overlay;
    TableFrames(l, s, r);
    forall n <- Tables(s.own, r) ensures SamePages(Overlay(d, dump, dump.Keys), s.mem, n) {
      OverlaySame(d, dump, n);
      DumpPage(dump, s.mem, n);
      SameBoth(Overlay(d, dump, dump.Keys), MemOf(dump), s.mem, n);
    }
    WalkAgrees(l, s, r, Overlay(d, dump, dump.Keys), va);
  }

  /** Its entries are those of the host, and the hardware makes of every address what they allow. */
  lemma DeviceEntries(l: Layout, s: Space, r: nat, d: Mem, dump: Store)
    requires Inv(l, s) && IsRoot(s, r) && IsFrame(r) && Dumped(s.mem, map[], dump, Tables(s.own, r))
    ensures SameEntries(s.mem, Overlay(d, dump, dump.Keys), r) && HardwareAgrees(s.mem, Overlay(d, dump, dump.Keys), r)
  {
    hide Inv, IsFrame, MemOf, Bytes, SamePages, Tables, Overlay, UserAccess, UserTarget, IsRoot, SameEntries;
    TableFrames(l, s, r);
    var e := Overlay(d, dump, dump.Keys);
    forall n <- Tables(s.own, r) ensures SamePages(e, s.mem, n) {
      OverlaySame(d, dump, n);
      DumpPage(dump, s.mem, n);
      SameBoth(e, MemOf(dump), s.mem, n);
    }
    EntriesAgree(l, s, r, e);
    forall va: nat, kind | va < U32 ensures va / PAGE_SIZE < PAGES && UserAccess(e, r, va, 1, kind) == UserTarget(s.mem, r, va, kind) {
      UserLookup(l, s, e, r, va, kind);
    }
  }

  /** With the page table of r in physical memory e, every access in user mode has the result that the entries in m allow. */
  ghost predicate HardwareAgrees(m: Mem, e: Mem, r: nat)
    requires IsFrame(r)
  {
    forall va: nat, kind | va < U32 ::
      va / PAGE_SIZE < PAGES && UserAccess(e, r, va, 1, kind) == UserTarget(m, r, va, kind)
  }

  lemma SameBoth(m: Mem, m1: Mem, m2: Mem, n: nat)
    requires SamePages(m, m1, n) && SamePages(m1, m2, n)
    ensures SamePages(m, m2, n)
  {
  }

  /** A byte that some page table maps does not lie in a page table. */
  lemma DataOutsideTables(l: Layout, s: Space, q: nat, x: nat, n: nat)
    requires Inv(l, s) && IsRoot(s, q) && IsFrame(q) && x < U32 && Walk(s.mem, q, x).Pa?
    requires n in s.own && !s.own[n].Leaf? && IsFrame(n)
    ensures !(n <= Walk(s.mem, q, x).pa < n + PAGE_SIZE)
  {
    hide Inv, IsFrame, Walk, Target, IsRoot;
    WalkIsTarget(l, s, q, x);
    TablesUnreachable(l, s, q, x / PAGE_SIZE);
    TargetIsFrame(s.mem, q, x / PAGE_SIZE);
    FrameMultiple(n);
    FramesApart(n, Target(s.mem, q, x / PAGE_SIZE).value);
  }

  lemma FrameMultiple(n: nat)
    requires IsFrame(n)
    ensures n % PAGE_SIZE == 0
  {
  }

  /** Data copied through any page table leaves the tables on the device alone. */
  lemma DataKeepsTables(l: Layout, s: Space, d: Mem, q: nat, va: nat, content: seq<byte>, r: nat, x: nat)
    requires Inv(l, s) && IsRoot(s, q) && IsFrame(q) && AllInside(s.mem, q, va, |content|)
    requires IsRoot(s, r) && IsFrame(r) && x < U32 && forall n <- Tables(s.own, r) :: SamePages(d, s.mem, n)
    ensures Walk(Placed(s.mem, d, q, va, content), r, x) == Walk(s.mem, r, x)
  {
    hide Inv, IsFrame, Walk, Tables, Placed, After, IsRoot;
    TableFrames(l, s, r);
    var e := Placed(s.mem, d, q, va, content);
    forall n <- Tables(s.own, r) ensures SamePages(e, s.mem, n) {
      forall a | n <= a < n + PAGE_SIZE && a < U32 ensures At(e, a) == At(s.mem, a) {
        forall i | 0 <= i < |content| ensures PaOf(s.mem, q, va, i) != a {
          DataOutsideTables(l, s, q, After(va, i), n);
        }
        PlacedElsewhere(s.mem, d, q, va, content, a);
      }
    }
    WalkAgrees(l, s, r, e, x);
  }

  /** Uploaded tables leave every mapped byte alone. */
  lemma TablesKeepData(l: Layout, s: Space, d: Mem, r: nat, dump: Store, q: nat, x: nat)
    requires Inv(l, s) && IsRoot(s, r) && dump.Keys == Tables(s.own, r)
    requires IsRoot(s, q) && IsFrame(q) && x < U32 && Walk(s.mem, q, x).Pa? && Walk(s.mem, q, x).pa < U32
    ensures At(Overlay(d, dump, dump.Keys), Walk(s.mem, q, x).pa) == At(d, Walk(s.mem, q, x).pa)
  {
    hide Inv, Walk, Tables, IsRoot, ByteOf;
    TableFrames(l, s, r);
    var pa := Walk(s.mem, q, x).pa;
    var n := pa - pa % PAGE_SIZE;
    assert n <= pa < n + PAGE_SIZE;
    if n in dump {
      DataOutsideTables(l, s, q, x, n);
    }
  }

  /** An image that was copied to pages of its page table is still there, byte for byte, after the page table was uploaded. */
  lemma ImageOnDevice(l: Layout, s: Space, d: Mem, dump: Store, r: nat, va: nat, image: seq<byte>)
    requires Inv(l, s) && IsRoot(s, r) && IsFrame(r) && MappedBytes(s.mem, r, va, |image|)
    requires dump.Keys == Tables(s.own, r)
    ensures AllInside(s.mem, r, va, |image|)
    ensures var e := Overlay(Placed(s.mem, d, r, va, image), dump, dump.Keys); Fetched(s.mem, e, r, va, |image|) == image
  {
    hide Inv, IsFrame, Walk, Tables, Placed, After, IsRoot, Overlay, PlacesApart;
    MappedApart(l, s, r, va, |image|);
    var d1 := Placed(s.mem, d, r, va, image);
    var e := Overlay(d1, dump, dump.Keys);
    forall i | 0 <= i < |image| ensures At(e, PaOf(s.mem, r, va, i)) == image[i] {
      PlacedAt(s.mem, d, r, va, image, i);
      assert PaOf(s.mem, r, va, i) < U32;
      TablesKeepData(l, s, d1, r, dump, r, After(va, i));
    }
  }
}
