/** Frames that lie in holes, and when skipping one of them is not enough. */
module HoleFrames {
  import opened Memory
  import opened Translation
  import opened Holes
  import opened PageTables

  ghost predicate InRange(l: Layout, a: nat) {
    IsFrame(a) && l.lo <= a && a + PAGE_SIZE <= l.hi
  }

  ghost predicate IsHoleFrame(l: Layout, a: nat) {
    InRange(l, a) && InHole(l.holes, a)
  }

  /** At most one frame of the allocator's range lies in a hole. */
  ghost predicate OneHoleFrame(l: Layout) {
    forall a: nat, b: nat | IsHoleFrame(l, a) && IsHoleFrame(l, b) :: a == b
  }

  /** No two frames in holes are neighbours. */
  ghost predicate Spaced(l: Layout) {
    forall a: nat, b: nat | IsHoleFrame(l, a) && IsHoleFrame(l, b) :: b != a + PAGE_SIZE
  }

  /** A frame in a hole is in use as soon as a higher frame is. */
  ghost predicate HolesFirst(l: Layout, used: set<nat>) {
    forall h: nat, g: nat | IsHoleFrame(l, h) && g in used && h < g :: h in used
  }

  /** The retry is enough in this state and stays enough: at most one frame lies in a hole, or the lowest frame is always
    served and no two frames in holes are neighbours. */
  ghost predicate RetryEnough(l: Layout, used: set<nat>, lowest: bool) {
    OneHoleFrame(l) || (lowest && Spaced(l) && HolesFirst(l, used))
  }

  /** a is the lowest frame that is not in use. */
  ghost predicate Lowest(l: Layout, used: set<nat>, a: nat) {
    InRange(l, a) && a !in used && forall g: nat | InRange(l, g) && g < a :: g in used
  }

  /** The two lowest frames that are not in use both lie in holes. */
  ghost predicate TwoHolesNext(l: Layout, used: set<nat>) {
    exists a: nat, b: nat :: Lowest(l, used, a) && Lowest(l, used + {a}, b) && InHole(l.holes, a) && InHole(l.holes, b)
  }

  ghost predicate AllUsed(l: Layout, used: set<nat>) {
    forall f: nat | InRange(l, f) :: f in used
  }

  /** Every frame outside the holes is in use. */
  ghost predicate NoneLeft(l: Layout, used: set<nat>) {
    forall f: nat | InRange(l, f) && !InHole(l.holes, f) :: f in used
  }

  /** Outside the holes one frame is left. */
  ghost predicate OneLeft(l: Layout, used: set<nat>) {
    exists x: nat :: Left(l, used, x) && NoneLeft(l, used + {x})
  }

  ghost predicate Left(l: Layout, used: set<nat>, x: nat) {
    InRange(l, x) && !InHole(l.holes, x) && x !in used
  }

  lemma OneAtATime(l: Layout, used: set<nat>)
    requires OneHoleFrame(l)
    ensures !TwoHolesNext(l, used)
  {
    hide InHole, IsFrame;
    forall a: nat, b: nat | Lowest(l, used, a) && Lowest(l, used + {a}, b) && InHole(l.holes, a) ensures !InHole(l.holes, b) {
      assert IsHoleFrame(l, a) && a != b;
      assert InHole(l.holes, b) ==> IsHoleFrame(l, b);
    }
  }

  /** Lower frames in holes are in use already, so that two of them come next only when they are neighbours. */
  lemma SpacedNext(l: Layout, used: set<nat>)
    requires Spaced(l) && HolesFirst(l, used)
    ensures !TwoHolesNext(l, used)
  {
    hide InHole;
    forall a: nat, b: nat | Lowest(l, used, a) && Lowest(l, used + {a}, b) && InHole(l.holes, a) ensures !InHole(l.holes, b) {
      assert IsHoleFrame(l, a) && a < b;
      assert InHole(l.holes, b) ==> IsHoleFrame(l, b);
      NextFrame(l, a, b);
      assert a + PAGE_SIZE < b ==> a + PAGE_SIZE in used + {a};
    }
  }

  lemma NextFrame(l: Layout, a: nat, b: nat)
    requires InRange(l, a) && InRange(l, b) && a < b
    ensures InRange(l, a + PAGE_SIZE) && a + PAGE_SIZE <= b
  {
  }

  lemma RetryNext(l: Layout, used: set<nat>, lowest: bool)
    requires RetryEnough(l, used, lowest)
    ensures !TwoHolesNext(l, used)
  {
    hide OneHoleFrame, Spaced, HolesFirst, TwoHolesNext;
    if OneHoleFrame(l) {
      OneAtATime(l, used);
    } else {
      SpacedNext(l, used);
    }
  }

  lemma LowestKeeps(l: Layout, used: set<nat>, a: nat)
    requires HolesFirst(l, used) && Lowest(l, used, a)
    ensures HolesFirst(l, used + {a})
  {
    hide InHole, IsFrame;
  }

  /** Taking a frame keeps the retry enough. */
  lemma RetryKept(l: Layout, used: set<nat>, lowest: bool, a: nat)
    requires RetryEnough(l, used, lowest) && (lowest ==> Lowest(l, used, a))
    ensures RetryEnough(l, used + {a}, lowest)
  {
    hide OneHoleFrame, Spaced, HolesFirst, Lowest;
    if lowest && HolesFirst(l, used) {
      LowestKeeps(l, used, a);
    }
  }

  /** So does the release of frames outside the holes. */
  lemma RetryReleased(l: Layout, used: set<nat>, lowest: bool, F: set<nat>)
    requires RetryEnough(l, used, lowest) && forall f <- F :: !InHole(l.holes, f)
    ensures RetryEnough(l, used - F, lowest)
  {
    hide InHole, IsFrame, OneHoleFrame, Spaced;
  }

  lemma NothingUsed(l: Layout, lowest: bool)
    ensures RetryEnough(l, {}, lowest) <==> OneHoleFrame(l) || (lowest && Spaced(l))
  {
    hide OneHoleFrame, Spaced, IsHoleFrame;
  }

  /** A hole of one page counts two frames, so that the first request of all is served from the hole, past a free frame. */
  lemma HoleServed()
    ensures var l := Layout(4096, 16384, map[4096 := 4096]); TwoHolesNext(l, {}) && Left(l, {}, 12288)
  {
    var l := Layout(4096, 16384, map[4096 := 4096]);
    assert 4096 in l.holes;
    assert InHole(l.holes, 4096) && InHole(l.holes, 8192) && !InHole(l.holes, 12288);
    assert Lowest(l, {}, 4096) && Lowest(l, {} + {4096}, 8192);
  }

  lemma LowestIsOne(l: Layout, used: set<nat>, a: nat, b: nat)
    requires Lowest(l, used, a) && Lowest(l, used, b)
    ensures a == b
  {
    hide IsFrame;
  }

  /** The frames taken for a request that is served: the last one alone, or after one in a hole. */
  ghost predicate Served(l: Layout, used: set<nat>, taken: set<nat>, f: nat) {
    (taken == {f} && !InHole(l.holes, f)) || ServedTwice(l, used, taken, f)
  }

  ghost predicate ServedTwice(l: Layout, used: set<nat>, taken: set<nat>, f: nat) {
    exists a: nat :: a != f && taken == {a, f} && InHole(l.holes, a) && a !in used && InRange(l, a)
  }

  lemma ServedOutside(l: Layout, used: set<nat>, lowest: bool, taken: set<nat>, f: nat)
    requires RetryEnough(l, used, lowest) && Served(l, used, taken, f) && InRange(l, f)
    requires lowest ==> (InHole(l.holes, f) <==> TwoHolesNext(l, used))
    ensures !InHole(l.holes, f) && forall g <- taken :: g == f || InHole(l.holes, g)
  {
    hide InHole, IsFrame, Spaced, HolesFirst, TwoHolesNext;
    RetryNext(l, used, lowest);
    if ServedTwice(l, used, taken, f) {
      var a: nat :| a != f && taken == {a, f} && InHole(l.holes, a) && a !in used && InRange(l, a);
      assert IsHoleFrame(l, a);
      assert InHole(l.holes, f) ==> IsHoleFrame(l, f);
    }
  }

  /** The lowest two frames were taken. */
  lemma ServedInHole(l: Layout, used: set<nat>, a: nat, f: nat)
    requires Lowest(l, used, a) && InHole(l.holes, a) && Lowest(l, used + {a}, f)
    ensures InHole(l.holes, f) <==> TwoHolesNext(l, used)
  {
    hide InHole, IsFrame;
    if TwoHolesNext(l, used) {
      var b: nat, c: nat :| Lowest(l, used, b) && Lowest(l, used + {b}, c) && InHole(l.holes, b) && InHole(l.holes, c);
      LowestIsOne(l, used, a, b);
      LowestIsOne(l, used + {a}, f, c);
    }
  }

  lemma ServedLater(l: Layout, used: set<nat>, a: nat, f: nat)
    requires a != f && InHole(l.holes, a) && a !in used && InRange(l, a)
    ensures Served(l, used, {a} + {f}, f)
  {
    hide InHole, InRange;
    assert {a} + {f} == {a, f};
  }

  lemma ServedFirst(l: Layout, used: set<nat>, f: nat)
    requires !InHole(l.holes, f)
    ensures Served(l, used, {f}, f) && (Lowest(l, used, f) ==> !TwoHolesNext(l, used))
  {
    hide InHole, IsFrame;
    if Lowest(l, used, f) {
      forall a: nat | Lowest(l, used, a) ensures a == f {
        LowestIsOne(l, used, a, f);
      }
    }
  }
}
